/**
 * The Monte Carlo tree of `jackrabbit/engine.py`. Nodes live in an arena
 * (a sequence indexed by node number); the root is node 0 and every node's
 * parent has a smaller index. A node's `children` dictionary is the
 * sequence of its entries in insertion order, which is also the order in
 * which Python iterates the dictionary.
 */
module Search {
  import opened Options
  import opened Stones
  import opened Boards
  import opened Groups
  import opened Rules
  import opened Rollouts
  import opened Scores

  // ---------------------------------------------------------------------
  // The node arena
  // ---------------------------------------------------------------------

  /** One entry of a `children` dictionary: the move and the child's node number. */
  datatype Edge = Edge(move: int, child: nat)

  datatype TreeNode = TreeNode(
    parent: Option<nat>,
    children: seq<Edge>,
    visits: nat,
    blackWins: int,
    expanded: bool,
    move: Option<int>)

  type Tree = seq<TreeNode>

  /** `TreeNode(parent)` with its `move` set. */
  function Fresh(parent: Option<nat>, move: Option<int>): TreeNode {
    TreeNode(parent, [], 0, 0, false, move)
  }

  /**
   * The tree `generate_move` starts from: a lone root with no parent, no
   * children, no statistics and not yet expanded. It is linked and balanced
   * whatever the board, and its statistics are sound.
   */
  function NewTree(): (r: Tree)
    ensures |r| == 1 && r[0].parent.None? && r[0].children == []
    ensures r[0].visits == 0 && r[0].blackWins == 0 && !r[0].expanded
    ensures StatsSound(r)
    ensures forall n: nat :: Linked(r, n) && RootBalanced(r, n)
  {
    [Fresh(None, None)]
  }

  /** The keys of a `children` dictionary, in order. */
  function Keys(edges: seq<Edge>): (r: seq<int>)
    ensures |r| == |edges|
    ensures forall k :: 0 <= k < |edges| ==> r[k] == edges[k].move
  {
    if edges == [] then [] else [edges[0].move] + Keys(edges[1..])
  }

  // ---------------------------------------------------------------------
  // Shape invariants
  // ---------------------------------------------------------------------

  /** Node 0 is the only root and a parent precedes its children. */
  ghost predicate ParentsBefore(t: Tree) {
    && |t| > 0
    && forall i :: 0 <= i < |t| ==>
         (t[i].parent.None? <==> i == 0) && (t[i].parent.Some? ==> t[i].parent.value < i)
  }

  /** A dictionary entry of node `i` names a later node whose parent and move agree. */
  ghost predicate EdgeOk(t: Tree, n: nat, i: nat, e: Edge)
    requires i < |t|
  {
    && i < e.child < |t|
    && t[e.child].parent == Some(i)
    && t[e.child].move == Some(e.move)
    && 0 <= e.move < n
  }

  ghost predicate EdgesLinked(t: Tree, n: nat) {
    forall i, k :: 0 <= i < |t| && 0 <= k < |t[i].children| ==> EdgeOk(t, n, i, t[i].children[k])
  }

  /** Dictionary keys are distinct. */
  ghost predicate KeysDistinct(t: Tree) {
    forall i, j, k :: 0 <= i < |t| && 0 <= j < k < |t[i].children| ==>
      t[i].children[j].move != t[i].children[k].move
  }

  /** Node `x` appears among the entries of node `p`. */
  ghost predicate ChildOf(t: Tree, p: nat, x: nat)
    requires p < |t|
  {
    exists k :: 0 <= k < |t[p].children| && t[p].children[k].child == x
  }

  /** Every node but the root is an entry of its parent's dictionary. */
  ghost predicate Listed(t: Tree)
    requires ParentsBefore(t)
  {
    forall x :: 0 < x < |t| ==> ChildOf(t, t[x].parent.value, x)
  }

  /** Only `expand` adds children, and it marks the node expanded. */
  ghost predicate LeavesUnexpanded(t: Tree) {
    forall i :: 0 <= i < |t| && !t[i].expanded ==> t[i].children == []
  }

  /** The shape every tree of a search on boards with `n` cells keeps. */
  ghost predicate Linked(t: Tree, n: nat) {
    && ParentsBefore(t)
    && EdgesLinked(t, n)
    && KeysDistinct(t)
    && Listed(t)
    && LeavesUnexpanded(t)
  }

  /** Every node has won at most as many playouts as it has seen. */
  ghost predicate StatsSound(t: Tree) {
    forall i :: 0 <= i < |t| ==> 0 <= t[i].blackWins <= t[i].visits
  }

  /** Node `j` is `x` or one of its ancestors. */
  ghost predicate OnPath(t: Tree, x: nat, j: nat)
    requires ParentsBefore(t) && x < |t|
    decreases x
  {
    j == x || (t[x].parent.Some? && OnPath(t, t[x].parent.value, j))
  }

  lemma {:induction false} OnPathBelow(t: Tree, x: nat, j: nat)
    requires ParentsBefore(t) && x < |t| && OnPath(t, x, j)
    ensures j <= x
    decreases x
  {
    if j != x {
      OnPathBelow(t, t[x].parent.value, j);
    }
  }

  lemma {:induction false} OnPathTrans(t: Tree, x: nat, y: nat, z: nat)
    requires ParentsBefore(t) && x < |t| && y < |t|
    requires OnPath(t, x, y) && OnPath(t, y, z)
    ensures OnPath(t, x, z)
    decreases x
  {
    if x != y {
      OnPathTrans(t, t[x].parent.value, y, z);
    }
  }

  /** The root is an ancestor of every node. */
  lemma {:induction false} RootOnPath(t: Tree, x: nat)
    requires ParentsBefore(t) && x < |t|
    ensures OnPath(t, x, 0)
    decreases x
  {
    if x != 0 {
      RootOnPath(t, t[x].parent.value);
    }
  }

  /** Two arenas whose first `|t|` parents agree have the same paths there. */
  lemma {:induction false} OnPathSameParents(t: Tree, r: Tree, x: nat, j: nat)
    requires ParentsBefore(t) && ParentsBefore(r) && |t| <= |r| && x < |t|
    requires forall i :: 0 <= i < |t| ==> r[i].parent == t[i].parent
    ensures OnPath(r, x, j) <==> OnPath(t, x, j)
    decreases x
  {
    if x != j && t[x].parent.Some? {
      OnPathSameParents(t, r, t[x].parent.value, j);
    }
  }

  // ---------------------------------------------------------------------
  // expand
  // ---------------------------------------------------------------------

  /** A new entry for `m` in node `i`'s dictionary, pointing at a fresh node. */
  function AddChild(t: Tree, i: nat, m: int): (r: Tree)
    requires i < |t|
  {
    t[i := t[i].(children := t[i].children + [Edge(m, |t|)])] + [Fresh(Some(i), Some(m))]
  }

  /**
   * `r` is `t` with entries appended to node `i`'s dictionary, each for a
   * fresh node appended to the arena in the same order; node `i` may also
   * have become expanded, and nothing else differs.
   */
  ghost predicate Grows(t: Tree, r: Tree, i: nat) {
    && i < |t| <= |r|
    && (forall j :: 0 <= j < |t| && j != i ==> r[j] == t[j])
    && r[i] == t[i].(children := r[i].children, expanded := r[i].expanded)
    && |r[i].children| - |t[i].children| == |r| - |t|
    && (forall k :: 0 <= k < |t[i].children| ==> r[i].children[k] == t[i].children[k])
    && (forall k :: |t[i].children| <= k < |r[i].children| ==>
          r[i].children[k].child == |t| + (k - |t[i].children|))
    && (forall j :: |t| <= j < |r| ==>
          r[j] == Fresh(Some(i), Some(r[i].children[|t[i].children| + (j - |t|)].move)))
  }

  lemma GrowsRefl(t: Tree, i: nat)
    requires i < |t|
    ensures Grows(t, t, i)
  {
  }

  lemma GrowsAddChild(t: Tree, i: nat, m: int)
    requires i < |t|
    ensures Grows(t, AddChild(t, i, m), i)
  {
  }

  lemma GrowsTrans(t: Tree, s: Tree, r: Tree, i: nat)
    requires Grows(t, s, i) && Grows(s, r, i)
    ensures Grows(t, r, i)
  {
    forall j | |t| <= j < |r|
      ensures r[j] == Fresh(Some(i), Some(r[i].children[|t[i].children| + (j - |t|)].move))
    {
      if j < |s| {
        assert r[j] == s[j];
        assert r[i].children[|t[i].children| + (j - |t|)] == s[i].children[|t[i].children| + (j - |t|)];
      }
    }
  }

  /**
   * The loop of `expand`: an entry for every move of `moves` that is not a
   * key yet, in order. Existing entries stay, keys never repeat, and the
   * keys afterwards are the keys before plus the moves.
   */
  function ExpandWith(t: Tree, i: nat, moves: seq<int>): (r: Tree)
    requires i < |t|
    ensures Grows(t, r, i) && r[i].expanded == t[i].expanded
    ensures forall m :: m in Keys(r[i].children) <==> m in Keys(t[i].children) || m in moves
    ensures forall j, k :: 0 <= j < k < |r[i].children| && |t[i].children| <= k ==>
              r[i].children[j].move != r[i].children[k].move
    decreases |moves|
  {
    if moves == [] then
      GrowsRefl(t, i);
      t
    else if moves[0] in Keys(t[i].children) then
      var r := ExpandWith(t, i, moves[1..]);
      assert forall m :: m in moves <==> m == moves[0] || m in moves[1..];
      r
    else
      var s := AddChild(t, i, moves[0]);
      GrowsAddChild(t, i, moves[0]);
      assert Keys(s[i].children) == Keys(t[i].children) + [moves[0]];
      var r := ExpandWith(s, i, moves[1..]);
      GrowsTrans(t, s, r, i);
      assert forall m :: m in moves <==> m == moves[0] || m in moves[1..];
      assert forall j :: 0 <= j < |s[i].children| ==> r[i].children[j] == s[i].children[j];
      assert forall j :: 0 <= j < |t[i].children| ==> t[i].children[j].move in Keys(t[i].children);
      r
  }

  /**
   * `TreeNode.expand`: an entry for every legal move of `player` that is
   * not a key yet, then mark the node expanded.
   */
  function Expand(t: Tree, i: nat, b: Board, player: Cell): (r: Tree)
    requires i < |t| && WellIndexed(b)
    ensures Grows(t, r, i) && r[i].expanded
    ensures forall m :: m in Keys(r[i].children) <==> m in Keys(t[i].children) || m in LegalMovesFor(b, player)
    ensures forall j, k :: 0 <= j < k < |r[i].children| && |t[i].children| <= k ==>
              r[i].children[j].move != r[i].children[k].move
    ensures forall j :: |t| <= j < |r| ==> r[j].visits == 0 && r[j].blackWins == 0
  {
    var s := ExpandWith(t, i, LegalMovesFor(b, player));
    s[i := s[i].(expanded := true)]
  }

  /** Expanding keeps the arena linked: new entries point at new nodes with fresh keys. */
  lemma ExpandLinked(t: Tree, n: nat, i: nat, b: Board, player: Cell)
    requires Linked(t, n) && i < |t| && WellIndexed(b) && |b.cells| == n
    ensures Linked(Expand(t, i, b, player), n)
  {
    var r := Expand(t, i, b, player);
    var old_ := |t[i].children|;
    forall k | old_ <= k < |r[i].children|
      ensures 0 <= r[i].children[k].move < n
    {
      var m := r[i].children[k].move;
      assert m in Keys(r[i].children);
      assert m in LegalMovesFor(b, player);
    }
    ExpandParents(t, r, i);
    ExpandEdges(t, r, n, i);
    ExpandListed(t, r, n, i);
  }

  lemma ExpandParents(t: Tree, r: Tree, i: nat)
    requires ParentsBefore(t) && Grows(t, r, i)
    ensures ParentsBefore(r)
  {
  }

  lemma ExpandEdges(t: Tree, r: Tree, n: nat, i: nat)
    requires EdgesLinked(t, n) && KeysDistinct(t) && LeavesUnexpanded(t) && Grows(t, r, i) && r[i].expanded
    requires forall k :: |t[i].children| <= k < |r[i].children| ==> 0 <= r[i].children[k].move < n
    requires forall j, k :: 0 <= j < k < |r[i].children| && |t[i].children| <= k ==>
               r[i].children[j].move != r[i].children[k].move
    ensures EdgesLinked(r, n) && KeysDistinct(r) && LeavesUnexpanded(r)
  {
    forall j, k | 0 <= j < |r| && 0 <= k < |r[j].children|
      ensures EdgeOk(r, n, j, r[j].children[k])
    {
      if j == i && k >= |t[i].children| {
        assert r[i].children[k].child == |t| + (k - |t[i].children|);
      } else {
        assert j < |t| && r[j].children[k] == t[j].children[k];
        assert EdgeOk(t, n, j, t[j].children[k]);
      }
    }
  }

  lemma ExpandListed(t: Tree, r: Tree, n: nat, i: nat)
    requires ParentsBefore(t) && Listed(t) && ParentsBefore(r) && Grows(t, r, i)
    ensures Listed(r)
  {
    forall x | 0 < x < |r|
      ensures ChildOf(r, r[x].parent.value, x)
    {
      if x < |t| {
        var p := t[x].parent.value;
        assert ChildOf(t, p, x);
        var k :| 0 <= k < |t[p].children| && t[p].children[k].child == x;
        assert r[p].children[k].child == x;
      } else {
        assert r[i].children[|t[i].children| + (x - |t|)].child == x;
      }
    }
  }

  /** Expanding never changes the statistics of an existing node, and new ones start at zero. */
  lemma ExpandStats(t: Tree, i: nat, b: Board, player: Cell)
    requires i < |t| && WellIndexed(b)
    ensures var r := Expand(t, i, b, player);
      forall j :: 0 <= j < |t| ==> r[j].visits == t[j].visits && r[j].blackWins == t[j].blackWins
    ensures StatsSound(t) ==> StatsSound(Expand(t, i, b, player))
  {
  }

  // ---------------------------------------------------------------------
  // update
  // ---------------------------------------------------------------------

  /** The statistics of one node after one more playout worth `value`. */
  function Count(node: TreeNode, value: int): TreeNode {
    node.(blackWins := node.blackWins + value, visits := node.visits + 1)
  }

  /**
   * `TreeNode.update(value)`: the parent (and so every ancestor) first,
   * then the node itself. Exactly the node and its ancestors are counted.
   */
  function Update(t: Tree, x: nat, value: int): (r: Tree)
    requires ParentsBefore(t) && x < |t|
    ensures |r| == |t|
    ensures forall j :: 0 <= j < |t| ==> r[j] == if OnPath(t, x, j) then Count(t[j], value) else t[j]
    decreases x
  {
    var up := if t[x].parent.Some? then Update(t, t[x].parent.value, value) else t;
    assert up[x] == t[x] by {
      if t[x].parent.Some? && OnPath(t, t[x].parent.value, x) {
        OnPathBelow(t, t[x].parent.value, x);
      }
    }
    up[x := Count(up[x], value)]
  }

  /** Back-propagation leaves the shape of the tree alone. */
  lemma UpdateLinked(t: Tree, n: nat, x: nat, value: int)
    requires Linked(t, n) && x < |t|
    ensures Linked(Update(t, x, value), n)
  {
    var r := Update(t, x, value);
    assert forall j :: 0 <= j < |t| ==>
      r[j].parent == t[j].parent && r[j].children == t[j].children &&
      r[j].move == t[j].move && r[j].expanded == t[j].expanded;
    assert ParentsBefore(r);
    forall y | 0 < y < |r|
      ensures ChildOf(r, r[y].parent.value, y)
    {
      assert ChildOf(t, t[y].parent.value, y);
    }
  }

  /** With a win value of 0 or 1, no node wins more playouts than it sees. */
  lemma UpdateStats(t: Tree, x: nat, value: int)
    requires ParentsBefore(t) && x < |t| && StatsSound(t) && 0 <= value <= 1
    ensures StatsSound(Update(t, x, value))
  {
  }

  // ---------------------------------------------------------------------
  // select
  // ---------------------------------------------------------------------

  /**
   * `uct_score(parent, child, max_flag)`: INFINITY for an unvisited child,
   * otherwise the child's win rate for the side choosing (BLACK when
   * `max_flag`) plus an exploration bonus. The bonus
   * `SIM_C * sqrt(log(parent.visits) / child.visits)` is floating-point
   * arithmetic and enters as the function `bonus(parent visits, child visits)`.
   */
  function UctScore(parentVisits: nat, child: TreeNode, maxFlag: bool, bonus: (nat, nat) -> real): (s: Score)
    ensures s.Infinite? <==> child.visits == 0
  {
    if child.visits == 0 then Infinite
    else
      var wins := if maxFlag then child.blackWins else child.visits - child.blackWins;
      Finite(wins as real / child.visits as real + bonus(parentVisits, child.visits))
  }

  /**
   * For a visited child, BLACK's score (`max_flag`) is BLACK's win rate plus
   * the bonus, and the two sides' win rates add up to 1, so WHITE's score is
   * the complement. With sound statistics each score lies within the bonus
   * plus [0, 1].
   */
  lemma UctScoreBounds(parentVisits: nat, child: TreeNode, maxFlag: bool, bonus: (nat, nat) -> real)
    requires child.visits > 0
    ensures UctScore(parentVisits, child, true, bonus).value
              == child.blackWins as real / child.visits as real + bonus(parentVisits, child.visits)
    ensures UctScore(parentVisits, child, true, bonus).value + UctScore(parentVisits, child, false, bonus).value
              == 1.0 + 2.0 * bonus(parentVisits, child.visits)
    ensures 0 <= child.blackWins <= child.visits ==>
              var s := UctScore(parentVisits, child, maxFlag, bonus);
              bonus(parentVisits, child.visits) <= s.value <= 1.0 + bonus(parentVisits, child.visits)
  {
    RateBounds(child.blackWins, child.visits);
    RateBounds(child.visits - child.blackWins, child.visits);
  }

  /** The scores of node `i`'s entries, in dictionary order. */
  function ChildScores(t: Tree, i: nat, maxFlag: bool, bonus: (nat, nat) -> real): (s: seq<Score>)
    requires i < |t|
    requires forall k :: 0 <= k < |t[i].children| ==> t[i].children[k].child < |t|
    ensures |s| == |t[i].children|
    ensures forall k :: 0 <= k < |s| ==> s[k] == UctScore(t[i].visits, t[t[i].children[k].child], maxFlag, bonus)
  {
    seq(|t[i].children|, k requires 0 <= k < |t[i].children| =>
      UctScore(t[i].visits, t[t[i].children[k].child], maxFlag, bonus))
  }

  /**
   * `TreeNode.select(max_flag)`: the first entry with the highest UCT
   * score. No entry scores higher, and an unvisited entry is chosen over
   * any visited one.
   */
  function Select(t: Tree, i: nat, maxFlag: bool, bonus: (nat, nat) -> real): (e: Edge)
    requires i < |t| && t[i].children != []
    requires forall k :: 0 <= k < |t[i].children| ==> t[i].children[k].child < |t|
    ensures e in t[i].children && e.child < |t|
    ensures forall k :: 0 <= k < |t[i].children| ==>
              !Below(UctScore(t[i].visits, t[e.child], maxFlag, bonus),
                     UctScore(t[i].visits, t[t[i].children[k].child], maxFlag, bonus))
    ensures (exists k :: 0 <= k < |t[i].children| && t[t[i].children[k].child].visits == 0) ==>
              t[e.child].visits == 0
  {
    var s := ChildScores(t, i, maxFlag, bonus);
    var k := FirstMax(s);
    assert (exists j :: 0 <= j < |s| && s[j].Infinite?) ==> s[k].Infinite?;
    t[i].children[k]
  }

  // ---------------------------------------------------------------------
  // _playout and _simulate
  // ---------------------------------------------------------------------

  /** Where the descent of `_playout` stopped: the node, its board and the side to move. */
  datatype Walk = Walk(node: nat, board: Board, player: Cell)

  /**
   * The selection loop of `_playout`: while the node has children, select
   * one (maximising for BLACK when BLACK is to move), play its move and
   * swap sides. It ends at a node without children that lies below the
   * starting node.
   */
  function Descend(t: Tree, n: nat, node: nat, b: Board, player: Cell, bonus: (nat, nat) -> real): (w: Walk)
    requires Linked(t, n) && node < |t| && |b.cells| == n
    ensures w.node < |t| && t[w.node].children == [] && OnPath(t, w.node, node)
    ensures w.board.size == b.size && w.board.neighbors == b.neighbors && |w.board.cells| == n
    ensures t[node].children != [] ==> w.node != node
    decreases |t| - node
  {
    if t[node].children == [] then Walk(node, b, player)
    else
      var e := Select(t, node, player == Black, bonus);
      assert EdgeOk(t, n, node, e);
      var w := Descend(t, n, e.child, PlayLegalMove(b, e.move, player), Opponent(player), bonus);
      assert OnPath(t, e.child, node);
      OnPathTrans(t, w.node, e.child, node);
      w
  }

  /** `if not node.expanded: node.expand(board, player)`. */
  function ExpandIfNeeded(t: Tree, n: nat, i: nat, b: Board, player: Cell): (r: Tree)
    requires Linked(t, n) && i < |t| && WellIndexed(b) && |b.cells| == n
    ensures |r| >= |t| && Linked(r, n) && r[i].expanded
    ensures t[i].expanded ==> r == t
    ensures !t[i].expanded ==> r == Expand(t, i, b, player)
  {
    if t[i].expanded then t
    else
      ExpandLinked(t, n, i, b, player);
      Expand(t, i, b, player)
  }

  /** What `_simulate` reports, with where the random game ended. */
  datatype Simulated = Simulated(value: int, final: Board, loser: Cell, draws: nat)

  /**
   * `_simulate`: play a random game to the end and report 1 exactly when
   * the side left without a legal move is not BLACK.
   */
  function Simulate(b: Board, player: Cell, shuffle: (nat, seq<int>) -> seq<int>, draws: nat): (r: Simulated)
    requires WellIndexed(b) && Permutes(shuffle)
    ensures r.value == 0 || r.value == 1
    ensures r.value == 1 <==> r.loser != Black
    ensures WellIndexed(r.final) && r.final.neighbors == b.neighbors
    ensures LegalMovesFor(r.final, r.loser) == []
    ensures r.loser == player || r.loser == Opponent(player)
    ensures r.draws > draws
  {
    var end := Rollout(b, player, shuffle, draws);
    Simulated(if end.loser != Black then 1 else 0, end.board, end.loser, end.draws)
  }

  /** A tree after a playout, with the generator's draw count. */
  datatype Searched = Searched(tree: Tree, draws: nat)

  /**
   * `_playout`: expand the root if needed, descend to a node without
   * children, expand it if needed, simulate from its position and count
   * the result on it and all its ancestors.
   */
  function Playout(t: Tree, b: Board, player: Cell, bonus: (nat, nat) -> real,
                   shuffle: (nat, seq<int>) -> seq<int>, draws: nat): (r: Searched)
    requires Linked(t, |b.cells|) && WellIndexed(b) && Permutes(shuffle)
    ensures Linked(r.tree, |b.cells|)
    ensures |r.tree| >= |t| && r.tree[0].expanded
    ensures r.tree[0].visits == t[0].visits + 1
    ensures r.draws > draws
  {
    var n := |b.cells|;
    var t1 := ExpandIfNeeded(t, n, 0, b, player);
    var w := Descend(t1, n, 0, b, player, bonus);
    var t2 := ExpandIfNeeded(t1, n, w.node, w.board, w.player);
    var sim := Simulate(w.board, w.player, shuffle, draws);
    UpdateLinked(t2, n, w.node, sim.value);
    RootOnPath(t2, w.node);
    Searched(Update(t2, w.node, sim.value), sim.draws)
  }

  // ---------------------------------------------------------------------
  // What a playout does to the root
  // ---------------------------------------------------------------------

  /** The total visits of the nodes a dictionary points at. */
  function SumVisits(t: Tree, edges: seq<Edge>): nat
    requires forall k :: 0 <= k < |edges| ==> edges[k].child < |t|
  {
    if edges == [] then 0 else t[edges[0].child].visits + SumVisits(t, edges[1..])
  }

  /** How many entries point at node `c`. */
  function CountChild(edges: seq<Edge>, c: nat): nat {
    if edges == [] then 0 else (if edges[0].child == c then 1 else 0) + CountChild(edges[1..], c)
  }

  /**
   * The root's bookkeeping: it has no visits until it is expanded, and once
   * it has children their visits add up to its own.
   */
  ghost predicate RootBalanced(t: Tree, n: nat)
    requires Linked(t, n)
  {
    && (!t[0].expanded ==> t[0].visits == 0)
    && (t[0].children != [] ==> t[0].visits == SumVisits(t, t[0].children))
  }

  /** Once expanded, the root's keys are exactly the legal moves of the position searched. */
  ghost predicate RootMoves(t: Tree, b: Board, player: Cell)
    requires |t| > 0 && WellIndexed(b)
  {
    t[0].expanded ==> forall m :: m in Keys(t[0].children) <==> m in LegalMovesFor(b, player)
  }

  lemma {:induction false} SumSameVisits(t: Tree, r: Tree, edges: seq<Edge>)
    requires forall k :: 0 <= k < |edges| ==> edges[k].child < |t| && edges[k].child < |r|
    requires forall k :: 0 <= k < |edges| ==> r[edges[k].child].visits == t[edges[k].child].visits
    ensures SumVisits(r, edges) == SumVisits(t, edges)
  {
    if edges != [] {
      SumSameVisits(t, r, edges[1..]);
    }
  }

  lemma {:induction false} SumZero(t: Tree, edges: seq<Edge>)
    requires forall k :: 0 <= k < |edges| ==> edges[k].child < |t| && t[edges[k].child].visits == 0
    ensures SumVisits(t, edges) == 0
  {
    if edges != [] {
      SumZero(t, edges[1..]);
    }
  }

  lemma {:induction false} SumBump(t: Tree, r: Tree, edges: seq<Edge>, c: nat)
    requires forall k :: 0 <= k < |edges| ==> edges[k].child < |t| && edges[k].child < |r|
    requires forall k :: 0 <= k < |edges| ==>
               r[edges[k].child].visits == t[edges[k].child].visits + (if edges[k].child == c then 1 else 0)
    ensures SumVisits(r, edges) == SumVisits(t, edges) + CountChild(edges, c)
  {
    if edges != [] {
      SumBump(t, r, edges[1..], c);
    }
  }

  lemma {:induction false} CountOnce(edges: seq<Edge>, c: nat, k: nat)
    requires k < |edges| && edges[k].child == c
    requires forall j :: 0 <= j < |edges| && j != k ==> edges[j].child != c
    ensures CountChild(edges, c) == 1
  {
    if k == 0 {
      CountNone(edges[1..], c);
    } else {
      CountOnce(edges[1..], c, k - 1);
    }
  }

  lemma {:induction false} CountNone(edges: seq<Edge>, c: nat)
    requires forall j :: 0 <= j < |edges| ==> edges[j].child != c
    ensures CountChild(edges, c) == 0
  {
    if edges != [] {
      CountNone(edges[1..], c);
    }
  }

  /** Every node below the root hangs under exactly one child of the root. */
  lemma {:induction false} RootChild(t: Tree, n: nat, x: nat) returns (c: nat)
    requires Linked(t, n) && 0 < x < |t|
    ensures 0 < c < |t| && t[c].parent == Some(0) && OnPath(t, x, c)
    ensures forall j :: 0 <= j < |t| && t[j].parent == Some(0) && OnPath(t, x, j) ==> j == c
    decreases x
  {
    var p := t[x].parent.value;
    if p == 0 {
      c := x;
      forall j | 0 <= j < |t| && t[j].parent == Some(0) && OnPath(t, x, j)
        ensures j == c
      {
        assert j != 0 && t[0].parent.None?;
        assert !OnPath(t, 0, j);
      }
    } else {
      c := RootChild(t, n, p);
      forall j | 0 <= j < |t| && t[j].parent == Some(0) && OnPath(t, x, j)
        ensures j == c
      {
        assert j != x;
        assert OnPath(t, p, j);
      }
    }
  }

  /** Distinct keys make distinct children: node `c` sits behind one entry of the root. */
  lemma RootEntryUnique(t: Tree, n: nat, c: nat, k: nat)
    requires EdgesLinked(t, n) && KeysDistinct(t) && |t| > 0
    requires k < |t[0].children| && t[0].children[k].child == c
    ensures forall j :: 0 <= j < |t[0].children| && j != k ==> t[0].children[j].child != c
  {
    var edges := t[0].children;
    forall j | 0 <= j < |edges| && j != k
      ensures edges[j].child != c
    {
      assert EdgeOk(t, n, 0, edges[j]) && EdgeOk(t, n, 0, edges[k]);
      if j < k {
        assert edges[j].move != edges[k].move;
      } else {
        assert edges[k].move != edges[j].move;
      }
    }
  }

  /** Counting a playout at `x` adds one visit to the root child above `x` and none to the others. */
  lemma RootEntriesCounted(t: Tree, n: nat, x: nat, value: int, c: nat)
    requires Linked(t, n) && 0 < x < |t| && 0 < c < |t| && OnPath(t, x, c)
    requires forall j :: 0 <= j < |t| && t[j].parent == Some(0) && OnPath(t, x, j) ==> j == c
    ensures var r := Update(t, x, value);
      forall k :: 0 <= k < |t[0].children| ==>
        r[t[0].children[k].child].visits == t[t[0].children[k].child].visits + (if t[0].children[k].child == c then 1 else 0)
  {
    var r := Update(t, x, value);
    forall k | 0 <= k < |t[0].children|
      ensures r[t[0].children[k].child].visits ==
                t[t[0].children[k].child].visits + (if t[0].children[k].child == c then 1 else 0)
    {
      assert EdgeOk(t, n, 0, t[0].children[k]);
    }
  }

  /** Counting a playout at a node below the root adds one visit to exactly one root child. */
  lemma UpdateRootSum(t: Tree, n: nat, x: nat, value: int)
    requires Linked(t, n) && 0 < x < |t| && t[0].children != []
    ensures forall k :: 0 <= k < |t[0].children| ==> t[0].children[k].child < |t|
    ensures SumVisits(Update(t, x, value), t[0].children) == SumVisits(t, t[0].children) + 1
  {
    var r := Update(t, x, value);
    var edges := t[0].children;
    assert forall k :: 0 <= k < |edges| ==> EdgeOk(t, n, 0, edges[k]);
    var c := RootChild(t, n, x);
    assert ChildOf(t, 0, c);
    var k :| 0 <= k < |edges| && edges[k].child == c;
    RootEntryUnique(t, n, c, k);
    CountOnce(edges, c, k);
    RootEntriesCounted(t, n, x, value, c);
    SumBump(t, r, edges, c);
  }

  /**
   * Counting a playout at a node below the root adds one visit to the
   * root and one to exactly one of its children, so a balanced root stays
   * balanced.
   */
  lemma UpdateBalances(t: Tree, n: nat, x: nat, value: int)
    requires Linked(t, n) && 0 < x < |t| && t[0].expanded && RootBalanced(t, n)
    ensures Linked(Update(t, x, value), n)
    ensures RootBalanced(Update(t, x, value), n)
  {
    var r := Update(t, x, value);
    UpdateLinked(t, n, x, value);
    RootOnPath(t, x);
    assert r[0].children == t[0].children && r[0].visits == t[0].visits + 1;
    if t[0].children != [] {
      UpdateRootSum(t, n, x, value);
    }
  }

  /** Expanding an unexpanded root gives it unvisited children only, so it is balanced. */
  lemma FirstExpansionBalances(t: Tree, n: nat, b: Board, player: Cell)
    requires Linked(t, n) && WellIndexed(b) && |b.cells| == n && RootBalanced(t, n)
    ensures var t1 := ExpandIfNeeded(t, n, 0, b, player);
      t1[0].expanded && RootBalanced(t1, n)
  {
    var t1 := ExpandIfNeeded(t, n, 0, b, player);
    if !t[0].expanded {
      assert t[0].children == [];
      forall k | 0 <= k < |t1[0].children|
        ensures t1[0].children[k].child < |t1| && t1[t1[0].children[k].child].visits == 0
      {
        assert t1[0].children[k].child == |t| + k;
      }
      SumZero(t1, t1[0].children);
    }
  }

  /** Expanding the node the descent reached, below the root, leaves the root's sums alone. */
  lemma LeafExpansionBalances(t1: Tree, n: nat, x: nat, b: Board, player: Cell)
    requires Linked(t1, n) && WellIndexed(b) && |b.cells| == n && 0 < x < |t1|
    requires t1[0].expanded && RootBalanced(t1, n)
    ensures var t2 := ExpandIfNeeded(t1, n, x, b, player);
      t2[0].expanded && RootBalanced(t2, n)
  {
    var t2 := ExpandIfNeeded(t1, n, x, b, player);
    ExpandStats(t1, x, b, player);
    assert t2[0] == t1[0];
    var edges := t1[0].children;
    assert forall k :: 0 <= k < |edges| ==> EdgeOk(t1, n, 0, edges[k]);
    SumSameVisits(t1, t2, edges);
  }

  /** A playout keeps the root balanced. */
  lemma PlayoutBalances(t: Tree, b: Board, player: Cell, bonus: (nat, nat) -> real,
                        shuffle: (nat, seq<int>) -> seq<int>, draws: nat)
    requires Linked(t, |b.cells|) && WellIndexed(b) && Permutes(shuffle) && RootBalanced(t, |b.cells|)
    ensures RootBalanced(Playout(t, b, player, bonus, shuffle, draws).tree, |b.cells|)
  {
    var n := |b.cells|;
    var t1 := ExpandIfNeeded(t, n, 0, b, player);
    FirstExpansionBalances(t, n, b, player);
    var w := Descend(t1, n, 0, b, player, bonus);
    var t2 := ExpandIfNeeded(t1, n, w.node, w.board, w.player);
    var sim := Simulate(w.board, w.player, shuffle, draws);
    assert Playout(t, b, player, bonus, shuffle, draws).tree == Update(t2, w.node, sim.value);
    if w.node == 0 {
      assert t2 == t1 && t2[0].children == [];
      RootOnPath(t2, 0);
      UpdateLinked(t2, n, 0, sim.value);
    } else {
      LeafExpansionBalances(t1, n, w.node, w.board, w.player);
      UpdateBalances(t2, n, w.node, sim.value);
    }
  }

  /** A playout keeps `0 <= black_wins <= visits` at every node. */
  lemma PlayoutStats(t: Tree, b: Board, player: Cell, bonus: (nat, nat) -> real,
                     shuffle: (nat, seq<int>) -> seq<int>, draws: nat)
    requires Linked(t, |b.cells|) && WellIndexed(b) && Permutes(shuffle) && StatsSound(t)
    ensures StatsSound(Playout(t, b, player, bonus, shuffle, draws).tree)
  {
    var n := |b.cells|;
    var t1 := ExpandIfNeeded(t, n, 0, b, player);
    ExpandStats(t, 0, b, player);
    var w := Descend(t1, n, 0, b, player, bonus);
    var t2 := ExpandIfNeeded(t1, n, w.node, w.board, w.player);
    ExpandStats(t1, w.node, w.board, w.player);
    var sim := Simulate(w.board, w.player, shuffle, draws);
    UpdateStats(t2, w.node, sim.value);
  }

  /** A playout from the same position keeps the root's keys equal to its legal moves. */
  lemma PlayoutRootMoves(t: Tree, b: Board, player: Cell, bonus: (nat, nat) -> real,
                         shuffle: (nat, seq<int>) -> seq<int>, draws: nat)
    requires Linked(t, |b.cells|) && WellIndexed(b) && Permutes(shuffle) && RootMoves(t, b, player)
    ensures RootMoves(Playout(t, b, player, bonus, shuffle, draws).tree, b, player)
  {
    var n := |b.cells|;
    var t1 := ExpandIfNeeded(t, n, 0, b, player);
    assert RootMoves(t1, b, player);
    var w := Descend(t1, n, 0, b, player, bonus);
    var t2 := ExpandIfNeeded(t1, n, w.node, w.board, w.player);
    assert t2[0] == t1[0];
    var sim := Simulate(w.board, w.player, shuffle, draws);
    RootOnPath(t2, w.node);
    assert Update(t2, w.node, sim.value)[0].children == t2[0].children;
  }

  /** The three root invariants across one playout, each when it holds before. */
  lemma PlayoutKeeps(t: Tree, b: Board, player: Cell, bonus: (nat, nat) -> real,
                     shuffle: (nat, seq<int>) -> seq<int>, draws: nat)
    requires Linked(t, |b.cells|) && WellIndexed(b) && Permutes(shuffle)
    ensures var r := Playout(t, b, player, bonus, shuffle, draws).tree;
      && (StatsSound(t) ==> StatsSound(r))
      && (RootBalanced(t, |b.cells|) ==> RootBalanced(r, |b.cells|))
      && (RootMoves(t, b, player) ==> RootMoves(r, b, player))
  {
    if StatsSound(t) {
      PlayoutStats(t, b, player, bonus, shuffle, draws);
    }
    if RootBalanced(t, |b.cells|) {
      PlayoutBalances(t, b, player, bonus, shuffle, draws);
    }
    if RootMoves(t, b, player) {
      PlayoutRootMoves(t, b, player, bonus, shuffle, draws);
    }
  }

  /**
   * The search loop of `generate_move`, run for `count` completed
   * playouts, each from the same position. The root gains one visit per
   * playout and the invariants hold throughout.
   */
  function Playouts(t: Tree, b: Board, player: Cell, bonus: (nat, nat) -> real,
                    shuffle: (nat, seq<int>) -> seq<int>, draws: nat, count: nat): (r: Searched)
    requires Linked(t, |b.cells|) && WellIndexed(b) && Permutes(shuffle)
    ensures Linked(r.tree, |b.cells|) && |r.tree| >= |t|
    ensures r.tree[0].visits == t[0].visits + count
    ensures count > 0 ==> r.tree[0].expanded
    ensures count == 0 ==> r.tree == t
    ensures StatsSound(t) ==> StatsSound(r.tree)
    ensures RootBalanced(t, |b.cells|) ==> RootBalanced(r.tree, |b.cells|)
    ensures RootMoves(t, b, player) ==> RootMoves(r.tree, b, player)
    decreases count
  {
    if count == 0 then Searched(t, draws)
    else
      var s := Playout(t, b, player, bonus, shuffle, draws);
      PlayoutKeeps(t, b, player, bonus, shuffle, draws);
      Playouts(s.tree, b, player, bonus, shuffle, s.draws, count - 1)
  }

  /** A lone root satisfies every invariant. */
  lemma NewTreeInvariants(b: Board, player: Cell)
    requires WellIndexed(b)
    ensures Linked(NewTree(), |b.cells|) && StatsSound(NewTree())
    ensures RootBalanced(NewTree(), |b.cells|) && RootMoves(NewTree(), b, player)
  {
    assert Listed(NewTree());
  }

  /** Root entry `k` has the most visits, and every earlier entry has fewer. */
  ghost predicate RobustAt(t: Tree, k: int)
    requires |t| > 0 && forall k :: 0 <= k < |t[0].children| ==> t[0].children[k].child < |t|
  {
    var edges := t[0].children;
    && 0 <= k < |edges|
    && (forall j :: 0 <= j < |edges| ==> t[edges[j].child].visits <= t[edges[k].child].visits)
    && (forall j :: 0 <= j < k ==> t[edges[j].child].visits < t[edges[k].child].visits)
  }

  /**
   * The move choice of `generate_move`: None when the root has no
   * children, otherwise the move of the first root child with the most
   * visits (the robust child).
   */
  function ChooseMove(t: Tree): (r: Option<int>)
    requires |t| > 0 && forall k :: 0 <= k < |t[0].children| ==> t[0].children[k].child < |t|
    ensures r.None? <==> t[0].children == []
    ensures r.Some? ==> exists k :: RobustAt(t, k) && t[0].children[k].move == r.value
  {
    var edges := t[0].children;
    if edges == [] then None
    else
      var s := seq(|edges|, k requires 0 <= k < |edges| => Finite(t[edges[k].child].visits as real));
      var k := FirstMax(s);
      forall j | 0 <= j < |edges|
        ensures t[edges[j].child].visits <= t[edges[k].child].visits
        ensures j < k ==> t[edges[j].child].visits < t[edges[k].child].visits
      {
        assert s[j] == Finite(t[edges[j].child].visits as real) && s[k] == Finite(t[edges[k].child].visits as real);
        assert !Below(s[k], s[j]);
      }
      assert RobustAt(t, k);
      Some(edges[k].move)
  }

  /**
   * After a search from position `b`, the chosen move is a legal move
   * there, and there is no move only if `b` has no legal move for `player`.
   */
  lemma ChosenMoveIsLegal(t: Tree, b: Board, player: Cell)
    requires WellIndexed(b) && Linked(t, |b.cells|) && t[0].expanded && RootMoves(t, b, player)
    ensures forall k :: 0 <= k < |t[0].children| ==> t[0].children[k].child < |t|
    ensures ChooseMove(t).None? <==> LegalMovesFor(b, player) == []
    ensures ChooseMove(t).Some? ==>
              0 <= ChooseMove(t).value < |b.cells| && LegalMove(b, ChooseMove(t).value, player)
  {
    var legal := LegalMovesFor(b, player);
    match ChooseMove(t)
    case None =>
      assert forall m :: m !in legal;
      HeadIsMember(legal);
    case Some(m) =>
      var k :| RobustAt(t, k) && t[0].children[k].move == m;
      assert EdgeOk(t, |b.cells|, 0, t[0].children[k]);
      assert m in Keys(t[0].children);
  }

  lemma HeadIsMember(xs: seq<int>)
    ensures |xs| > 0 ==> xs[0] in xs
  {
  }
}

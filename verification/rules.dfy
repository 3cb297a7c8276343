/**
 * The NoGo rules of `nogo4/board.py`: capture detection, the legality test,
 * the empty and legal point lists, random legal-move selection and playing
 * a move. A move is legal when the point is EMPTY and, with the stone
 * placed, the stone's group keeps a liberty and no adjacent opponent group
 * loses its last one: NoGo forbids both suicide and capture.
 */
module Rules {
  import opened Options
  import opened Stones
  import opened Boards
  import opened Groups

  // ---------------------------------------------------------------------
  // Writing a stone
  // ---------------------------------------------------------------------

  /** `play_legal_move_for`: write the colour, unconditionally. */
  function PlayLegalMove(b: Board, p: int, c: Cell): (r: Board)
    requires 0 <= p < |b.cells|
    ensures r.size == b.size && r.neighbors == b.neighbors && |r.cells| == |b.cells|
    ensures r.cells[p] == c
    ensures forall q :: 0 <= q < |b.cells| && q != p ==> r.cells[q] == b.cells[q]
  {
    b.(cells := b.cells[p := c])
  }

  // ---------------------------------------------------------------------
  // Reference definition of legality
  // ---------------------------------------------------------------------

  /**
   * The NoGo legality rule: the point is EMPTY and, once the stone is
   * placed, its group has a liberty and every adjacent group of the
   * opponent's colour still has one.
   */
  ghost predicate LegalMove(b: Board, p: int, c: Cell)
    requires WellIndexed(b) && 0 <= p < |b.cells|
  {
    && b.cells[p] == Empty
    && var placed := PlayLegalMove(b, p, c);
    && GroupHasLiberty(placed, p)
    && !exists q :: q in b.neighbors[p] && placed.cells[q] == Opponent(c) && !GroupHasLiberty(placed, q)
  }

  // ---------------------------------------------------------------------
  // Capture detection and the legality test
  // ---------------------------------------------------------------------

  /**
   * `_detect_captures_of(point, color)` restricted to a suffix of the
   * neighbour list: is some neighbour of `color` in a group without a
   * liberty?
   */
  function CapturesAmong(b: Board, nbs: seq<int>, color: Cell): (r: bool)
    requires WellIndexed(b)
    requires forall q :: q in nbs ==> 0 <= q < |b.cells|
    ensures r <==> exists q :: q in nbs && b.cells[q] == color && !GroupHasLiberty(b, q)
  {
    if nbs == [] then false
    else
      assert nbs[0] in nbs;
      assert forall q :: q in nbs[1..] ==> q in nbs;
      if b.cells[nbs[0]] == color && !BlockHasLiberty(b, nbs[0]) then true
      else CapturesAmong(b, nbs[1..], color)
  }

  /** `_detect_captures_of(point, color)`. */
  function DetectCapturesOf(b: Board, point: int, color: Cell): (r: bool)
    requires WellIndexed(b) && 0 <= point < |b.cells|
    ensures r <==> exists q :: q in b.neighbors[point] && b.cells[q] == color && !GroupHasLiberty(b, q)
  {
    CapturesAmong(b, b.neighbors[point], color)
  }

  /** What `is_move_legal_for` answers, with the cells as it leaves them. */
  datatype Verdict = Verdict(legal: bool, after: Board)

  /**
   * `is_move_legal_for(point, color)`: reject an occupied point, otherwise
   * place the stone tentatively, test its own group's liberty and the
   * capture of adjacent opponent groups, and restore the point to EMPTY on
   * both paths.
   */
  function IsMoveLegalFor(b: Board, p: int, c: Cell): (r: Verdict)
    requires WellIndexed(b) && 0 <= p < |b.cells|
    ensures r.legal <==> LegalMove(b, p, c)
    ensures b.cells[p] != Empty ==> !r.legal
    ensures r.after == b
  {
    if b.cells[p] != Empty then Verdict(false, b)
    else
      var placed := PlayLegalMove(b, p, c);
      var restored := PlayLegalMove(placed, p, Empty);
      if !BlockHasLiberty(placed, p) || DetectCapturesOf(placed, p, Opponent(c)) then
        Verdict(false, restored)
      else
        Verdict(true, restored)
  }

  /** The legality answer on its own. */
  predicate IsLegal(b: Board, p: int, c: Cell)
    requires WellIndexed(b) && 0 <= p < |b.cells|
  {
    IsMoveLegalFor(b, p, c).legal
  }

  // ---------------------------------------------------------------------
  // Point lists
  // ---------------------------------------------------------------------

  /** Strictly ascending. */
  predicate Increasing(xs: seq<int>) {
    forall j, k :: 0 <= j < k < |xs| ==> xs[j] < xs[k]
  }

  /** The EMPTY indices from `i` on, ascending. */
  function EmptyFrom(cells: seq<Cell>, i: nat): (r: seq<int>)
    requires i <= |cells|
    ensures forall p :: p in r <==> i <= p < |cells| && cells[p] == Empty
    ensures Increasing(r)
    decreases |cells| - i
  {
    if i == |cells| then []
    else
      var rest := EmptyFrom(cells, i + 1);
      assert forall k :: 0 <= k < |rest| ==> rest[k] in rest;
      if cells[i] == Empty then [i] + rest else rest
  }

  /** `get_empty_points`: every EMPTY index, ascending (`np.where`). */
  function EmptyPoints(b: Board): (r: seq<int>)
    ensures forall p :: p in r <==> 0 <= p < |b.cells| && b.cells[p] == Empty
    ensures Increasing(r)
  {
    EmptyFrom(b.cells, 0)
  }

  /** The points of `pts` that pass the legality test, in order. */
  function FilterLegal(b: Board, c: Cell, pts: seq<int>): (r: seq<int>)
    requires WellIndexed(b)
    requires forall p :: p in pts ==> 0 <= p < |b.cells|
    ensures forall p :: p in r <==> p in pts && LegalMove(b, p, c)
    ensures Increasing(pts) ==> Increasing(r)
  {
    if pts == [] then []
    else
      assert pts[0] in pts;
      assert forall p :: p in pts[1..] ==> p in pts;
      var rest := FilterLegal(b, c, pts[1..]);
      assert Increasing(pts) ==> forall k :: 0 <= k < |rest| ==> pts[0] < rest[k] by {
        if Increasing(pts) {
          forall k | 0 <= k < |rest|
            ensures pts[0] < rest[k]
          {
            assert rest[k] in rest;
            var j :| 0 <= j < |pts[1..]| && pts[1..][j] == rest[k];
            assert pts[j + 1] == rest[k];
          }
        }
      }
      if IsLegal(b, pts[0], c) then [pts[0]] + rest else rest
  }

  /**
   * `get_legal_moves_for`: the EMPTY points that pass `is_move_legal_for`,
   * in ascending index order.
   */
  function LegalMovesFor(b: Board, c: Cell): (r: seq<int>)
    requires WellIndexed(b)
    ensures forall p :: p in r <==> 0 <= p < |b.cells| && LegalMove(b, p, c)
    ensures Increasing(r)
  {
    FilterLegal(b, c, EmptyPoints(b))
  }

  /** The first point of `order` that passes the legality test. */
  function FirstLegal(b: Board, c: Cell, order: seq<int>): (r: Option<int>)
    requires WellIndexed(b) && OnBoard(b.cells, order)
    ensures r.None? <==> forall i :: 0 <= i < |order| ==> !LegalMove(b, order[i], c)
    ensures r.Some? ==> 0 <= r.value < |b.cells| && LegalMove(b, r.value, c)
    ensures r.Some? ==> exists k :: FirstLegalAt(b, c, order, k) && order[k] == r.value
  {
    if order == [] then None
    else if IsLegal(b, order[0], c) then
      assert FirstLegalAt(b, c, order, 0);
      Some(order[0])
    else
      var r := FirstLegal(b, c, order[1..]);
      assert forall i :: 0 < i < |order| ==> order[i] == order[1..][i - 1];
      assert r.Some? ==> exists k :: FirstLegalAt(b, c, order, k) && order[k] == r.value by {
        if r.Some? {
          var k :| FirstLegalAt(b, c, order[1..], k) && order[1..][k] == r.value;
          assert FirstLegalAt(b, c, order, k + 1);
        }
      }
      r
  }

  /** Position `k` of `order` is legal and no earlier position is. */
  ghost predicate FirstLegalAt(b: Board, c: Cell, order: seq<int>, k: int)
    requires WellIndexed(b) && OnBoard(b.cells, order)
  {
    && 0 <= k < |order|
    && LegalMove(b, order[k], c)
    && forall j :: 0 <= j < k ==> !LegalMove(b, order[j], c)
  }

  /**
   * `get_random_move_for`: scan a shuffled copy of the empty points and
   * return the first legal one. The shuffle is the argument `order`, any
   * permutation of the empty points.
   */
  function RandomMoveFor(b: Board, c: Cell, order: seq<int>): (r: Option<int>)
    requires WellIndexed(b)
    requires multiset(order) == multiset(EmptyPoints(b))
    ensures r.None? <==> forall p :: 0 <= p < |b.cells| ==> !LegalMove(b, p, c)
    ensures r.None? <==> LegalMovesFor(b, c) == []
    ensures r.Some? ==> 0 <= r.value < |b.cells| && LegalMove(b, r.value, c) && r.value in order
  {
    assert forall p :: p in order <==> p in EmptyPoints(b) by {
      forall p
        ensures p in order <==> p in EmptyPoints(b)
      {
        assert p in order <==> p in multiset(order);
        assert p in EmptyPoints(b) <==> p in multiset(EmptyPoints(b));
      }
    }
    assert forall i :: 0 <= i < |order| ==> order[i] in order;
    var r := FirstLegal(b, c, order);
    var legal := LegalMovesFor(b, c);
    assert legal == [] <==> forall p :: 0 <= p < |b.cells| ==> !LegalMove(b, p, c) by {
      if legal != [] {
        assert legal[0] in legal;
      }
    }
    r
  }

  /** Shuffling cannot change whether a legal move exists. */
  lemma RandomMoveForAnyOrder(b: Board, c: Cell, order1: seq<int>, order2: seq<int>)
    requires WellIndexed(b)
    requires multiset(order1) == multiset(EmptyPoints(b))
    requires multiset(order2) == multiset(EmptyPoints(b))
    ensures RandomMoveFor(b, c, order1).None? <==> RandomMoveFor(b, c, order2).None?
  {
  }

  /** Moving one element to the front permutes a sequence. */
  lemma MoveToFront(xs: seq<int>, i: int)
    requires 0 <= i < |xs|
    ensures multiset([xs[i]] + (xs[..i] + xs[i + 1..])) == multiset(xs)
  {
    assert xs == xs[..i] + ([xs[i]] + xs[i + 1..]);
  }

  /** Every legal move is picked by some shuffle: the one that puts it first. */
  lemma EveryLegalMoveCanBePicked(b: Board, c: Cell, p: int)
    requires WellIndexed(b) && 0 <= p < |b.cells| && LegalMove(b, p, c)
    ensures exists order :: multiset(order) == multiset(EmptyPoints(b)) && RandomMoveFor(b, c, order) == Some(p)
  {
    var empties := EmptyPoints(b);
    assert p in empties;
    var i :| 0 <= i < |empties| && empties[i] == p;
    var order := [p] + (empties[..i] + empties[i + 1..]);
    MoveToFront(empties, i);
    assert OnBoard(b.cells, order) by {
      forall k | 0 <= k < |order|
        ensures 0 <= order[k] < |b.cells|
      {
        assert order[k] in multiset(order);
        assert order[k] in empties;
      }
    }
    assert IsLegal(b, p, c);
    assert FirstLegal(b, c, order) == Some(p);
    assert RandomMoveFor(b, c, order) == Some(p);
  }

  // ---------------------------------------------------------------------
  // Playing
  // ---------------------------------------------------------------------

  /** What `play_for` answers, with the board as it leaves it. */
  datatype Played = Played(ok: bool, board: Board)

  /** `play_for`: validate, then write the stone. */
  function PlayFor(b: Board, p: int, c: Cell): (r: Played)
    requires WellIndexed(b) && 0 <= p < |b.cells|
    ensures r.ok <==> LegalMove(b, p, c)
    ensures !r.ok ==> r.board == b
    ensures r.ok ==> r.board.size == b.size && r.board.neighbors == b.neighbors
    ensures r.ok ==> |r.board.cells| == |b.cells| && r.board.cells[p] == c
    ensures r.ok ==> forall q :: 0 <= q < |b.cells| && q != p ==> r.board.cells[q] == b.cells[q]
  {
    if !IsLegal(b, p, c) then Played(false, b)
    else Played(true, PlayLegalMove(b, p, c))
  }

  /** Writing a stone keeps the array lengths and the neighbour table. */
  lemma PlayKeepsShape(b: Board, p: int, c: Cell)
    requires Shaped(b) && 0 <= p < |b.cells|
    ensures Shaped(PlayLegalMove(b, p, c))
  {
  }

  /** A legal move writes an EMPTY, hence playable, cell: the border ring survives. */
  lemma LegalMoveKeepsBorder(b: Board, p: int, c: Cell)
    requires Shaped(b) && BorderIntact(b) && 0 <= p < |b.cells|
    requires WellIndexed(b) && LegalMove(b, p, c) && c != Border
    ensures BorderIntact(PlayLegalMove(b, p, c))
  {
  }

  /** A legal move fills exactly one EMPTY cell. */
  lemma LegalMoveFillsEmpty(b: Board, p: int, c: Cell)
    requires WellIndexed(b) && 0 <= p < |b.cells| && LegalMove(b, p, c) && c != Empty
    ensures |EmptyPoints(PlayLegalMove(b, p, c))| + 1 == |EmptyPoints(b)|
  {
    var after := PlayLegalMove(b, p, c);
    var before := set q | 0 <= q < |b.cells| && b.cells[q] == Empty;
    var now := set q | 0 <= q < |b.cells| && after.cells[q] == Empty;
    assert now == before - {p};
    DistinctCount(EmptyPoints(b), before);
    DistinctCount(EmptyPoints(after), now);
  }

  /** An ascending sequence has as many elements as its set of values. */
  lemma {:induction false} DistinctCount(xs: seq<int>, s: set<int>)
    requires Increasing(xs)
    requires forall x :: x in xs <==> x in s
    ensures |xs| == |s|
    decreases |xs|
  {
    if xs != [] {
      var tail := xs[1..];
      assert forall x :: x in tail ==> xs[0] < x;
      assert forall x :: x in tail <==> x in s - {xs[0]} by {
        forall x
          ensures x in tail <==> x in s - {xs[0]}
        {
          if x in s - {xs[0]} {
            assert x in xs;
            var k :| 0 <= k < |xs| && xs[k] == x;
            assert k != 0;
            assert tail[k - 1] == x;
          }
        }
      }
      DistinctCount(tail, s - {xs[0]});
      assert xs[0] in s;
    } else {
      assert forall x :: x !in s;
      assert s == {};
    }
  }

  // ---------------------------------------------------------------------
  // The NoGo position invariant
  // ---------------------------------------------------------------------

  /** The neighbour relation is symmetric. */
  ghost predicate SymmetricTable(b: Board)
    requires WellIndexed(b)
  {
    forall x, y :: 0 <= x < |b.neighbors| && y in b.neighbors[x] ==> x in b.neighbors[y]
  }

  lemma ShapedIsSymmetric(b: Board)
    requires Shaped(b)
    ensures WellIndexed(b) && SymmetricTable(b)
  {
    ShapedIsWellIndexed(b);
    forall x, y | 0 <= x < |b.neighbors| && y in b.neighbors[x]
      ensures x in b.neighbors[y]
    {
      NeighborTableSymmetric(b.size, x, y);
    }
  }

  /** Every group of black or white stones has a liberty. */
  ghost predicate AllGroupsAlive(b: Board)
    requires WellIndexed(b)
  {
    forall s :: 0 <= s < |b.cells| && IsPlayer(b.cells[s]) ==> GroupHasLiberty(b, s)
  }

  /** A fresh board has no stones, so nothing is dead. */
  lemma NewBoardAlive(size: nat)
    ensures WellIndexed(NewBoard(size)) && AllGroupsAlive(NewBoard(size))
  {
    ShapedIsWellIndexed(NewBoard(size));
  }

  /** Group membership is transitive. */
  lemma InGroupTrans(b: Board, s: int, t: int, u: int)
    requires WellIndexed(b) && 0 <= s < |b.cells| && 0 <= t < |b.cells|
    requires InGroup(b, s, t) && InGroup(b, t, u)
    ensures InGroup(b, s, u)
  {
    var p1 :| IsChain(b, b.cells[s], p1) && p1[0] == s && p1[|p1| - 1] == t;
    var p2 :| IsChain(b, b.cells[t], p2) && p2[0] == t && p2[|p2| - 1] == u;
    var joined := p1 + p2[1..];
    assert b.cells[t] == b.cells[s];
    assert IsChain(b, b.cells[s], joined) by {
      forall i | 0 <= i < |joined| - 1
        ensures joined[i + 1] in b.neighbors[joined[i]]
      {
        if i < |p1| - 1 {
        } else {
          assert joined[i] == p2[i - |p1| + 1];
        }
      }
    }
    assert joined[|joined| - 1] == u;
  }

  /** A member's group liberty is a liberty of every group it belongs to. */
  lemma LibertyThrough(b: Board, s: int, t: int)
    requires WellIndexed(b) && 0 <= s < |b.cells| && 0 <= t < |b.cells|
    requires InGroup(b, s, t) && GroupHasLiberty(b, t)
    ensures GroupHasLiberty(b, s)
  {
    var u :| 0 <= u < |b.cells| && InGroup(b, t, u) && HasLiberty(b, u);
    InGroupTrans(b, s, t, u);
  }

  /** Chains that avoid the written point survive the write. */
  lemma ChainSurvivesWrite(b: Board, p: int, c: Cell, d: Cell, path: seq<int>)
    requires WellIndexed(b) && 0 <= p < |b.cells| && b.cells[p] != d
    requires IsChain(b, d, path)
    ensures IsChain(PlayLegalMove(b, p, c), d, path)
  {
  }

  /** The three conditions of a legal move, spelt out. */
  lemma LegalMoveFacts(b: Board, p: int, c: Cell)
    requires WellIndexed(b) && 0 <= p < |b.cells| && LegalMove(b, p, c)
    ensures b.cells[p] == Empty
    ensures GroupHasLiberty(PlayLegalMove(b, p, c), p)
    ensures forall q :: q in b.neighbors[p] && PlayLegalMove(b, p, c).cells[q] == Opponent(c) ==>
      GroupHasLiberty(PlayLegalMove(b, p, c), q)
  {
  }

  /**
   * NoGo never removes stones, so its positions must keep every group alive:
   * a legal move by a player on a position where every group has a liberty
   * leads to a position where every group still has one.
   */
  lemma LegalMoveKeepsGroupsAlive(b: Board, p: int, c: Cell)
    requires WellIndexed(b) && SymmetricTable(b) && 0 <= p < |b.cells|
    requires IsPlayer(c) && AllGroupsAlive(b) && LegalMove(b, p, c)
    ensures AllGroupsAlive(PlayLegalMove(b, p, c))
  {
    var after := PlayLegalMove(b, p, c);
    LegalMoveFacts(b, p, c);
    forall s | 0 <= s < |after.cells| && IsPlayer(after.cells[s])
      ensures GroupHasLiberty(after, s)
    {
      if InGroup(after, s, p) {
        LibertyThrough(after, s, p);
      } else {
        InGroupSelf(after, s);
        assert s != p;
        assert GroupHasLiberty(b, s);
        var t :| 0 <= t < |b.cells| && InGroup(b, s, t) && HasLiberty(b, t);
        GroupSurvivesWrite(b, p, c, s, t);
        StoneAwayFromMove(b, p, c, s, t);
      }
    }
  }

  /** The group of a stone not at the written EMPTY point keeps its members. */
  lemma GroupSurvivesWrite(b: Board, p: int, c: Cell, s: int, t: int)
    requires WellIndexed(b) && 0 <= p < |b.cells| && b.cells[p] == Empty
    requires 0 <= s < |b.cells| && IsPlayer(b.cells[s]) && InGroup(b, s, t)
    ensures InGroup(PlayLegalMove(b, p, c), s, t)
  {
    var path :| IsChain(b, b.cells[s], path) && path[0] == s && path[|path| - 1] == t;
    ChainSurvivesWrite(b, p, c, b.cells[s], path);
  }

  /**
   * A stone outside the new stone's group keeps the liberty `t` its group
   * had, or, when that liberty was the written point, borrows the liberty
   * the legality test guaranteed to the adjacent opponent group.
   */
  lemma StoneAwayFromMove(b: Board, p: int, c: Cell, s: int, t: int)
    requires WellIndexed(b) && SymmetricTable(b) && 0 <= p < |b.cells| && IsPlayer(c)
    requires b.cells[p] == Empty
    requires forall q :: q in b.neighbors[p] && PlayLegalMove(b, p, c).cells[q] == Opponent(c) ==>
      GroupHasLiberty(PlayLegalMove(b, p, c), q)
    requires 0 <= s < |b.cells| && s != p && IsPlayer(b.cells[s])
    requires !InGroup(PlayLegalMove(b, p, c), s, p)
    requires 0 <= t < |b.cells| && HasLiberty(b, t)
    requires InGroup(PlayLegalMove(b, p, c), s, t)
    ensures GroupHasLiberty(PlayLegalMove(b, p, c), s)
  {
    var after := PlayLegalMove(b, p, c);
    InGroupColor(after, s, t);
    var e :| e in b.neighbors[t] && b.cells[e] == Empty;
    if e != p {
      assert HasLiberty(after, t);
    } else if b.cells[s] == c {
      InGroupStep(after, s, t, p);
      assert false;
    } else {
      assert t in b.neighbors[p];
      LibertyThrough(after, s, t);
    }
  }
}

/**
 * Groups and liberties (`nogo4/board.py`, `_block_has_liberty`).
 *
 * A group is the maximal set of cells of one colour reachable from a stone by
 * steps along the neighbour table; a liberty of a cell is an EMPTY neighbour.
 * The source decides "does the group of this stone have a liberty" with a
 * stack-based flood fill that marks a cell visited when it is POPPED, so a
 * cell can sit on the stack more than once. `Fill` models that loop step for
 * step and is proved equal to the path-based definition `GroupHasLiberty`.
 */
module Groups {
  import opened Stones
  import opened Boards

  /** Every neighbour list names an index of the cell array. */
  predicate WellIndexed(b: Board) {
    && |b.neighbors| == |b.cells|
    && forall p, q :: 0 <= p < |b.neighbors| && q in b.neighbors[p] ==> 0 <= q < |b.cells|
  }

  lemma ShapedIsWellIndexed(b: Board)
    requires Shaped(b)
    ensures WellIndexed(b)
  {
    NeighborTableInRange(b.size);
  }

  // ---------------------------------------------------------------------
  // Reference definitions: chains, groups, liberties
  // ---------------------------------------------------------------------

  /** A walk along the neighbour table that stays on cells of `color`. */
  ghost predicate IsChain(b: Board, color: Cell, path: seq<int>)
    requires WellIndexed(b)
  {
    && |path| > 0
    && (forall i :: 0 <= i < |path| ==> 0 <= path[i] < |b.cells| && b.cells[path[i]] == color)
    && (forall i :: 0 <= i < |path| - 1 ==> path[i + 1] in b.neighbors[path[i]])
  }

  /** `t` belongs to the group of the stone at `s`. */
  ghost predicate InGroup(b: Board, s: int, t: int)
    requires WellIndexed(b) && 0 <= s < |b.cells|
  {
    exists path :: IsChain(b, b.cells[s], path) && path[0] == s && path[|path| - 1] == t
  }

  /** The cell at `t` has an EMPTY neighbour. */
  ghost predicate HasLiberty(b: Board, t: int)
    requires WellIndexed(b) && 0 <= t < |b.cells|
  {
    exists e :: e in b.neighbors[t] && b.cells[e] == Empty
  }

  /** Some cell of the group of `s` has an EMPTY neighbour. */
  ghost predicate GroupHasLiberty(b: Board, s: int)
    requires WellIndexed(b) && 0 <= s < |b.cells|
  {
    exists t :: 0 <= t < |b.cells| && InGroup(b, s, t) && HasLiberty(b, t)
  }

  lemma InGroupSelf(b: Board, s: int)
    requires WellIndexed(b) && 0 <= s < |b.cells|
    ensures InGroup(b, s, s)
  {
    assert IsChain(b, b.cells[s], [s]);
  }

  /** A same-coloured neighbour of a group member is a group member. */
  lemma InGroupStep(b: Board, s: int, t: int, u: int)
    requires WellIndexed(b) && 0 <= s < |b.cells| && 0 <= t < |b.cells|
    requires InGroup(b, s, t) && u in b.neighbors[t] && b.cells[u] == b.cells[s]
    ensures InGroup(b, s, u)
  {
    var path :| IsChain(b, b.cells[s], path) && path[0] == s && path[|path| - 1] == t;
    var longer := path + [u];
    assert IsChain(b, b.cells[s], longer);
  }

  lemma InGroupColor(b: Board, s: int, t: int)
    requires WellIndexed(b) && 0 <= s < |b.cells|
    requires InGroup(b, s, t)
    ensures 0 <= t < |b.cells| && b.cells[t] == b.cells[s]
  {
    var path :| IsChain(b, b.cells[s], path) && path[0] == s && path[|path| - 1] == t;
  }

  /** A liberty of the stone itself is a liberty of its group. */
  lemma OwnLiberty(b: Board, s: int, e: int)
    requires WellIndexed(b) && 0 <= s < |b.cells|
    requires e in b.neighbors[s] && b.cells[e] == Empty
    ensures GroupHasLiberty(b, s)
  {
    InGroupSelf(b, s);
    assert HasLiberty(b, s);
  }

  // ---------------------------------------------------------------------
  // The flood fill
  // ---------------------------------------------------------------------

  /** Outcome of scanning one neighbour list. */
  datatype Scanned = Liberty | Pushed(added: seq<int>)

  /**
   * One `for nb in neighbors[...]` loop of the flood fill: stop at the first
   * EMPTY neighbour, otherwise collect, in order, the unvisited neighbours of
   * `color` that get pushed.
   */
  function Scan(cells: seq<Cell>, color: Cell, nbs: seq<int>, visited: seq<bool>): (r: Scanned)
    requires |visited| == |cells|
    requires forall q :: q in nbs ==> 0 <= q < |cells|
    ensures r.Liberty? <==> exists q :: q in nbs && cells[q] == Empty
    ensures r.Pushed? ==> forall q :: q in r.added <==> q in nbs && !visited[q] && cells[q] == color
    ensures r.Pushed? && (forall q :: q in nbs && cells[q] == color ==> visited[q]) ==> r.added == []
  {
    if nbs == [] then Pushed([])
    else
      var q := nbs[0];
      assert q in nbs;
      assert forall x :: x in nbs[1..] ==> x in nbs;
      if cells[q] == Empty then Liberty
      else
        match Scan(cells, color, nbs[1..], visited)
        case Liberty => Liberty
        case Pushed(more) =>
          if !visited[q] && cells[q] == color then Pushed([q] + more) else Pushed(more)
  }

  /** Number of cells not yet marked visited. */
  function Unvisited(visited: seq<bool>): nat {
    if visited == [] then 0
    else (if visited[0] then 0 else 1) + Unvisited(visited[1..])
  }

  lemma {:induction false} MarkVisited(visited: seq<bool>, i: int)
    requires 0 <= i < |visited|
    ensures Unvisited(visited[i := true]) == Unvisited(visited) - (if visited[i] then 0 else 1)
    decreases |visited|
  {
    if i > 0 {
      MarkVisited(visited[1..], i - 1);
      assert visited[i := true][1..] == visited[1..][i - 1 := true];
    } else {
      assert visited[i := true][1..] == visited[1..];
    }
  }

  /** Every stack entry is an index of the cell array. */
  predicate OnBoard(cells: seq<Cell>, stack: seq<int>) {
    forall i :: 0 <= i < |stack| ==> 0 <= stack[i] < |cells|
  }

  /**
   * The termination invariant of the pop-time marking: a stack entry that is
   * already visited has every unvisited neighbour of `color` above it on the
   * stack. In particular a visited entry on top pushes nothing when popped.
   */
  ghost predicate PendingAbove(b: Board, color: Cell, stack: seq<int>, visited: seq<bool>)
    requires WellIndexed(b) && |visited| == |b.cells| && OnBoard(b.cells, stack)
  {
    forall i, x ::
      (0 <= i < |stack| && visited[stack[i]] && x in b.neighbors[stack[i]]
       && b.cells[x] == color && !visited[x]) ==> x in stack[i + 1..]
  }

  /** The cells processed so far, together with the start stone. */
  ghost predicate Processed(s: int, visited: seq<bool>, x: int)
    requires 0 <= x < |visited|
  {
    x == s || visited[x]
  }

  /**
   * The correctness invariant: everything on the stack or visited is in the
   * group of `s`, and every processed cell has no liberty and has each of its
   * same-coloured neighbours processed or still on the stack.
   */
  ghost predicate FillInvariant(b: Board, s: int, stack: seq<int>, visited: seq<bool>)
    requires WellIndexed(b) && 0 <= s < |b.cells| && |visited| == |b.cells| && OnBoard(b.cells, stack)
  {
    && (forall i :: 0 <= i < |stack| ==> InGroup(b, s, stack[i]))
    && (forall x :: 0 <= x < |b.cells| && visited[x] ==> InGroup(b, s, x))
    && (forall x :: 0 <= x < |b.cells| && Processed(s, visited, x) ==> !HasLiberty(b, x))
    && (forall x, y ::
          (0 <= x < |b.cells| && Processed(s, visited, x) && y in b.neighbors[x]
           && b.cells[y] == b.cells[s]) ==> Processed(s, visited, y) || y in stack)
  }

  /**
   * The `while stack:` loop: pop, mark visited, scan the neighbours. It
   * returns true exactly when the group of `s` has a liberty.
   */
  function Fill(b: Board, color: Cell, stack: seq<int>, visited: seq<bool>, ghost s: int): (r: bool)
    requires WellIndexed(b) && 0 <= s < |b.cells| && |visited| == |b.cells|
    requires color == b.cells[s]
    requires OnBoard(b.cells, stack)
    requires PendingAbove(b, b.cells[s], stack, visited)
    requires FillInvariant(b, s, stack, visited)
    ensures r <==> GroupHasLiberty(b, s)
    decreases Unvisited(visited), |stack|
  {
    if stack == [] then
      NoLibertyWhenClosed(b, s, visited);
      false
    else
      var cur := stack[|stack| - 1];
      var rest := stack[..|stack| - 1];
      var marked := visited[cur := true];
      match Scan(b.cells, color, b.neighbors[cur], marked)
      case Liberty =>
        LibertyOfMember(b, s, cur);
        true
      case Pushed(added) =>
        MarkVisited(visited, cur);
        assert visited[cur] ==> added == [] by {
          if visited[cur] {
            assert stack[|stack|..] == [];
            assert forall x :: x in b.neighbors[cur] && b.cells[x] == color ==> marked[x];
          }
        }
        FillStep(b, s, stack, visited, added);
        Fill(b, color, rest + added, marked, s)
  }

  /** A member of the group with an EMPTY neighbour gives the group a liberty. */
  lemma LibertyOfMember(b: Board, s: int, t: int)
    requires WellIndexed(b) && 0 <= s < |b.cells| && 0 <= t < |b.cells|
    requires InGroup(b, s, t) && exists q :: q in b.neighbors[t] && b.cells[q] == Empty
    ensures GroupHasLiberty(b, s)
  {
    assert HasLiberty(b, t);
  }

  /** One pop of the loop keeps both invariants. */
  lemma FillStep(b: Board, s: int, stack: seq<int>, visited: seq<bool>, added: seq<int>)
    requires WellIndexed(b) && 0 <= s < |b.cells| && |visited| == |b.cells|
    requires OnBoard(b.cells, stack) && stack != []
    requires PendingAbove(b, b.cells[s], stack, visited)
    requires FillInvariant(b, s, stack, visited)
    requires var cur := stack[|stack| - 1];
      Scan(b.cells, b.cells[s], b.neighbors[cur], visited[cur := true]) == Pushed(added)
    ensures var cur := stack[|stack| - 1];
      && OnBoard(b.cells, stack[..|stack| - 1] + added)
      && PendingAbove(b, b.cells[s], stack[..|stack| - 1] + added, visited[cur := true])
      && FillInvariant(b, s, stack[..|stack| - 1] + added, visited[cur := true])
  {
    var cur := stack[|stack| - 1];
    var rest := stack[..|stack| - 1];
    assert stack == rest + [cur];
    var marked := visited[cur := true];
    var next := rest + added;
    assert forall q :: q in added ==> q in b.neighbors[cur] && !marked[q] && b.cells[q] == b.cells[s];
    StepOnBoard(b, cur, rest, added);
    StepPending(b, b.cells[s], cur, rest, visited, added);
    StepInGroup(b, s, cur, rest, visited, added);
    StepClosed(b, s, cur, rest, visited, added);
  }

  lemma StepOnBoard(b: Board, cur: int, rest: seq<int>, added: seq<int>)
    requires WellIndexed(b) && 0 <= cur < |b.cells| && OnBoard(b.cells, rest + [cur])
    requires forall q :: q in added ==> q in b.neighbors[cur]
    ensures OnBoard(b.cells, rest + added)
  {
    var next := rest + added;
    forall i | 0 <= i < |next|
      ensures 0 <= next[i] < |b.cells|
    {
      if i >= |rest| {
        assert next[i] in added;
      } else {
        assert next[i] == (rest + [cur])[i];
      }
    }
  }

  lemma StepPending(b: Board, color: Cell, cur: int, rest: seq<int>, visited: seq<bool>, added: seq<int>)
    requires WellIndexed(b) && 0 <= cur < |b.cells| && |visited| == |b.cells|
    requires OnBoard(b.cells, rest + [cur]) && OnBoard(b.cells, rest + added)
    requires PendingAbove(b, color, rest + [cur], visited)
    requires forall q :: q in added ==> q in b.neighbors[cur] && !visited[cur := true][q]
    requires forall q :: q in b.neighbors[cur] && !visited[cur := true][q] && b.cells[q] == color ==> q in added
    ensures PendingAbove(b, color, rest + added, visited[cur := true])
  {
    var stack := rest + [cur];
    var marked := visited[cur := true];
    var next := rest + added;
    forall i | |rest| <= i < |next|
      ensures next[i] in added && !marked[next[i]]
    {
      assert next[i] == added[i - |rest|];
    }
    forall i, x | 0 <= i < |next| && marked[next[i]] && x in b.neighbors[next[i]]
        && b.cells[x] == color && !marked[x]
      ensures x in next[i + 1..]
    {
      if i < |rest| {
        if next[i] == cur {
          assert x in added;
          var j :| 0 <= j < |added| && added[j] == x;
          assert next[|rest| + j] == x;
        } else {
          assert stack[i] == next[i];
          assert x in stack[i + 1..];
          var k :| i + 1 <= k < |stack| && stack[k] == x;
          assert k < |rest|;
          assert next[k] == x;
        }
      }
    }
  }

  lemma StepInGroup(b: Board, s: int, cur: int, rest: seq<int>, visited: seq<bool>, added: seq<int>)
    requires WellIndexed(b) && 0 <= s < |b.cells| && 0 <= cur < |b.cells| && |visited| == |b.cells|
    requires OnBoard(b.cells, rest + [cur]) && OnBoard(b.cells, rest + added)
    requires FillInvariant(b, s, rest + [cur], visited)
    requires forall q :: q in added ==> q in b.neighbors[cur] && b.cells[q] == b.cells[s]
    ensures forall i :: 0 <= i < |rest + added| ==> InGroup(b, s, (rest + added)[i])
    ensures forall x :: 0 <= x < |b.cells| && visited[cur := true][x] ==> InGroup(b, s, x)
  {
    var stack := rest + [cur];
    var next := rest + added;
    assert InGroup(b, s, stack[|rest|]);
    forall i | 0 <= i < |next|
      ensures InGroup(b, s, next[i])
    {
      if i < |rest| {
        assert next[i] == stack[i];
      } else {
        assert next[i] in added;
        InGroupStep(b, s, cur, next[i]);
      }
    }
  }

  lemma StepClosed(b: Board, s: int, cur: int, rest: seq<int>, visited: seq<bool>, added: seq<int>)
    requires WellIndexed(b) && 0 <= s < |b.cells| && 0 <= cur < |b.cells| && |visited| == |b.cells|
    requires OnBoard(b.cells, rest + [cur]) && OnBoard(b.cells, rest + added)
    requires FillInvariant(b, s, rest + [cur], visited)
    requires Scan(b.cells, b.cells[s], b.neighbors[cur], visited[cur := true]) == Pushed(added)
    ensures forall x :: 0 <= x < |b.cells| && Processed(s, visited[cur := true], x) ==> !HasLiberty(b, x)
    ensures forall x, y ::
          (0 <= x < |b.cells| && Processed(s, visited[cur := true], x) && y in b.neighbors[x]
           && b.cells[y] == b.cells[s]) ==> Processed(s, visited[cur := true], y) || y in rest + added
  {
    var stack := rest + [cur];
    var marked := visited[cur := true];
    var next := rest + added;
    forall x | 0 <= x < |b.cells| && Processed(s, marked, x)
      ensures !HasLiberty(b, x)
    {
      if x == cur {
        assert !exists q :: q in b.neighbors[cur] && b.cells[q] == Empty;
      }
    }
    forall x, y | 0 <= x < |b.cells| && Processed(s, marked, x) && y in b.neighbors[x]
        && b.cells[y] == b.cells[s]
      ensures Processed(s, marked, y) || y in next
    {
      if !Processed(s, marked, y) {
        if x == cur {
          assert y in added;
        } else {
          assert Processed(s, visited, x);
          assert y in stack;
          var k :| 0 <= k < |stack| && stack[k] == y;
          assert k < |rest|;
          assert next[k] == y;
        }
      }
    }
  }

  /** A chain that starts among the processed cells of a closed fill stays among them. */
  lemma {:induction false} ChainStaysProcessed(b: Board, s: int, visited: seq<bool>, path: seq<int>)
    requires WellIndexed(b) && 0 <= s < |b.cells| && |visited| == |b.cells|
    requires FillInvariant(b, s, [], visited)
    requires IsChain(b, b.cells[s], path) && Processed(s, visited, path[0])
    ensures Processed(s, visited, path[|path| - 1])
    decreases |path|
  {
    if |path| > 1 {
      var front := path[..|path| - 1];
      assert IsChain(b, b.cells[s], front);
      ChainStaysProcessed(b, s, visited, front);
      assert path[|path| - 1] in b.neighbors[front[|front| - 1]];
    }
  }

  /** With an empty stack, no cell of the group has a liberty. */
  lemma NoLibertyWhenClosed(b: Board, s: int, visited: seq<bool>)
    requires WellIndexed(b) && 0 <= s < |b.cells| && |visited| == |b.cells|
    requires FillInvariant(b, s, [], visited)
    ensures !GroupHasLiberty(b, s)
  {
    if GroupHasLiberty(b, s) {
      var t :| 0 <= t < |b.cells| && InGroup(b, s, t) && HasLiberty(b, t);
      var path :| IsChain(b, b.cells[s], path) && path[0] == s && path[|path| - 1] == t;
      ChainStaysProcessed(b, s, visited, path);
      assert false;
    }
  }

  /**
   * `_block_has_liberty(stone)`: scan the stone's own neighbours (returning
   * at the first EMPTY one, pushing those of its colour), then run the fill
   * from a cleared `visited` array.
   */
  function BlockHasLiberty(b: Board, stone: int): (r: bool)
    requires WellIndexed(b) && 0 <= stone < |b.cells|
    ensures r <==> GroupHasLiberty(b, stone)
  {
    var color := b.cells[stone];
    var cleared := seq(|b.cells|, _ => false);
    match Scan(b.cells, color, b.neighbors[stone], cleared)
    case Liberty =>
      var e :| e in b.neighbors[stone] && b.cells[e] == Empty;
      OwnLiberty(b, stone, e);
      true
    case Pushed(added) =>
      StartFill(b, stone, added);
      Fill(b, color, added, cleared, stone)
  }

  /** The state after the first neighbour scan satisfies the fill's invariants. */
  lemma StartFill(b: Board, s: int, added: seq<int>)
    requires WellIndexed(b) && 0 <= s < |b.cells|
    requires Scan(b.cells, b.cells[s], b.neighbors[s], seq(|b.cells|, _ => false)) == Pushed(added)
    ensures OnBoard(b.cells, added)
    ensures PendingAbove(b, b.cells[s], added, seq(|b.cells|, _ => false))
    ensures FillInvariant(b, s, added, seq(|b.cells|, _ => false))
  {
    var cleared := seq(|b.cells|, _ => false);
    assert forall i :: 0 <= i < |added| ==> added[i] in added;
    InGroupSelf(b, s);
    forall i | 0 <= i < |added|
      ensures InGroup(b, s, added[i])
    {
      InGroupStep(b, s, s, added[i]);
    }
    forall x | 0 <= x < |b.cells| && Processed(s, cleared, x)
      ensures !HasLiberty(b, x)
    {
      assert x == s;
    }
  }
}

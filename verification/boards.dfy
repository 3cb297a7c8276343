/**
 * The board layout of `nogo4/board.py`: a flat array of cells in which the
 * playable `size x size` area sits inside a one-cell BORDER ring, with rows of
 * stride `size + 1` (the column-0 cell of each row is the border on both the
 * left and the right side), and a neighbour table computed once.
 */
module Boards {
  import opened Stones

  /** Distance between vertically adjacent cells (`ns` in the source). */
  function Stride(size: nat): nat {
    size + 1
  }

  /** Length of the cell array (`maxpoint` in the source). */
  function MaxPoint(size: nat): nat {
    size * size + 3 * (size + 1)
  }

  function Row(size: nat, p: nat): nat {
    p / Stride(size)
  }

  function Col(size: nat, p: nat): nat {
    p % Stride(size)
  }

  /** Index `p` names a cell of the playable area. */
  predicate Playable(size: nat, p: int) {
    0 <= p && 1 <= Row(size, p) <= size && 1 <= Col(size, p) <= size
  }

  /** The index of the playable cell at a 1-based row and column. */
  function PointAt(size: nat, row: nat, col: nat): nat {
    row * Stride(size) + col
  }

  lemma MulAtLeast(k: int, n: int)
    requires k >= 1 && n > 0
    ensures k * n >= n
  {
    assert k * n == (k - 1) * n + n;
    assert (k - 1) * n >= 0;
  }

  lemma MulMonotone(a: int, b: int, n: int)
    requires a <= b && n >= 0
    ensures a * n <= b * n
  {
    assert b * n - a * n == (b - a) * n;
  }

  /** Integer division by a positive stride is the inverse of `row * n + col`. */
  lemma DivModUnique(p: int, r: int, c: int, n: int)
    requires n > 0 && 0 <= c < n && p == r * n + c
    ensures p / n == r && p % n == c
  {
    var q, m := p / n, p % n;
    assert p == q * n + m;
    assert (r - q) * n == m - c by {
      assert (r - q) * n == r * n - q * n;
    }
    if r - q >= 1 {
      MulAtLeast(r - q, n);
    } else if q - r >= 1 {
      MulAtLeast(q - r, n);
    }
  }

  /** Rows and columns recover the coordinates a point was built from. */
  lemma PointAtCoordinates(size: nat, row: nat, col: nat)
    requires col <= size
    ensures Row(size, PointAt(size, row, col)) == row
    ensures Col(size, PointAt(size, row, col)) == col
  {
    DivModUnique(PointAt(size, row, col), row, col, Stride(size));
  }

  /** Every index of the cell array is a row and column of the layout. */
  lemma Coordinates(size: nat, p: nat)
    ensures p == PointAt(size, Row(size, p), Col(size, p))
    ensures Col(size, p) <= size
  {
  }

  /** The four orthogonal candidates the source examines, in its order. */
  function Candidates(size: nat, p: int): seq<int> {
    [p - 1, p + 1, p - Stride(size), p + Stride(size)]
  }

  /** Being a candidate is a symmetric relation between indices. */
  lemma CandidatesSymmetric(size: nat, p: int, q: int)
    ensures q in Candidates(size, p) <==> p in Candidates(size, q)
  {
  }

  /**
   * Every playable point lies in the cell array, and so do its four
   * candidates: the border ring absorbs all edges.
   */
  lemma PlayableCandidatesInRange(size: nat, p: int)
    requires Playable(size, p)
    ensures 0 <= p < MaxPoint(size)
    ensures forall q :: q in Candidates(size, p) ==> 0 <= q < MaxPoint(size)
  {
    var n := Stride(size);
    var r, c := Row(size, p), Col(size, p);
    Coordinates(size, p);
    MulMonotone(r + 1, size + 1, n);
    MulAtLeast(r, n);
    assert p + n == (r + 1) * n + c;
    assert (size + 1) * n == size * size + 2 * size + 1;
  }

  // ---------------------------------------------------------------------
  // Construction of the cells (board.py `__init__`, lines 23-26)
  // ---------------------------------------------------------------------

  /** The slice assignment `cells[start : start + len] = EMPTY`. */
  function FillEmpty(cells: seq<Cell>, start: nat, len: nat): (r: seq<Cell>)
    requires start + len <= |cells|
    ensures |r| == |cells|
    ensures forall i :: 0 <= i < |r| ==> r[i] == (if start <= i < start + len then Empty else cells[i])
  {
    cells[..start] + seq(len, _ => Empty) + cells[start + len..]
  }

  /**
   * The row loop of the constructor, from row `row` to row `size`: each
   * row's `size` playable cells, starting at column 1, become EMPTY.
   */
  function FillRows(size: nat, row: nat, cells: seq<Cell>): (r: seq<Cell>)
    requires 1 <= row <= size + 1
    requires |cells| == MaxPoint(size)
    requires forall p :: 0 <= p < |cells| ==>
      cells[p] == (if Playable(size, p) && Row(size, p) < row then Empty else Border)
    ensures |r| == |cells|
    ensures forall p :: 0 <= p < |r| ==> r[p] == (if Playable(size, p) then Empty else Border)
    decreases size + 1 - row
  {
    if row > size then
      cells
    else
      var start := PointAt(size, row, 1);
      assert start + size <= |cells| by {
        MulMonotone(row, size, Stride(size));
      }
      var next := FillEmpty(cells, start, size);
      assert forall p :: 0 <= p < |next| ==>
        next[p] == (if Playable(size, p) && Row(size, p) < row + 1 then Empty else Border) by {
        forall p | 0 <= p < |next|
          ensures next[p] == (if Playable(size, p) && Row(size, p) < row + 1 then Empty else Border)
        {
          Coordinates(size, p);
          if start <= p < start + size {
            PointAtCoordinates(size, row, p - row * Stride(size));
          }
        }
      }
      FillRows(size, row + 1, next)
  }

  /** The constructor's cell array: all BORDER, then each row's playable run EMPTY. */
  function InitialCells(size: nat): (cells: seq<Cell>)
    ensures |cells| == MaxPoint(size)
    ensures forall p :: 0 <= p < |cells| ==> cells[p] == (if Playable(size, p) then Empty else Border)
  {
    var all := seq(MaxPoint(size), _ => Border);
    if size == 0 then all else FillRows(size, 1, all)
  }

  // ---------------------------------------------------------------------
  // The neighbour table (board.py `__init__`, lines 28-33)
  // ---------------------------------------------------------------------

  /** The candidates, in order, whose cell is not BORDER. */
  function KeepOnBoard(cells: seq<Cell>, cands: seq<int>): (r: seq<int>)
    requires forall q :: q in cands ==> 0 <= q < |cells|
    ensures forall q :: q in r <==> q in cands && cells[q] != Border
  {
    if cands == [] then []
    else
      assert cands[0] in cands;
      assert forall q :: q in cands[1..] ==> q in cands;
      (if cells[cands[0]] != Border then [cands[0]] else []) + KeepOnBoard(cells, cands[1..])
  }

  /** The BORDER cells are exactly the non-playable ones. */
  predicate BorderRing(size: nat, cells: seq<Cell>) {
    && |cells| == MaxPoint(size)
    && forall p :: 0 <= p < |cells| ==> (cells[p] == Border <==> !Playable(size, p))
  }

  /** The neighbour list of one index: empty for a BORDER cell. */
  function NeighborList(size: nat, cells: seq<Cell>, p: nat): seq<int>
    requires BorderRing(size, cells)
    requires p < |cells|
  {
    if cells[p] == Border then []
    else
      PlayableCandidatesInRange(size, p);
      KeepOnBoard(cells, Candidates(size, p))
  }

  /** The table of neighbour lists, one per index of the cell array. */
  function NeighborTable(size: nat): (t: seq<seq<int>>)
    ensures |t| == MaxPoint(size)
    ensures forall p, q :: 0 <= p < |t| ==>
      (q in t[p] <==> Playable(size, p) && Playable(size, q) && q in Candidates(size, p))
  {
    var cells := InitialCells(size);
    assert BorderRing(size, cells);
    var t := seq(|cells|, p requires 0 <= p < |cells| => NeighborList(size, cells, p));
    assert forall p, q :: 0 <= p < |t| ==>
      (q in t[p] <==> Playable(size, p) && Playable(size, q) && q in Candidates(size, p)) by {
      forall p, q | 0 <= p < |t|
        ensures q in t[p] <==> Playable(size, p) && Playable(size, q) && q in Candidates(size, p)
      {
        if Playable(size, p) {
          PlayableCandidatesInRange(size, p);
        }
      }
    }
    t
  }

  /** Neighbour lists only name indices of the cell array. */
  lemma NeighborTableInRange(size: nat)
    ensures forall p, q :: 0 <= p < MaxPoint(size) && q in NeighborTable(size)[p] ==>
      0 <= q < MaxPoint(size)
  {
    forall p, q | 0 <= p < MaxPoint(size) && q in NeighborTable(size)[p]
      ensures 0 <= q < MaxPoint(size)
    {
      PlayableCandidatesInRange(size, p);
    }
  }

  /** Adjacency is symmetric: `q` lists `p` exactly when `p` lists `q`. */
  lemma NeighborTableSymmetric(size: nat, p: nat, q: nat)
    requires p < MaxPoint(size) && q < MaxPoint(size)
    ensures q in NeighborTable(size)[p] <==> p in NeighborTable(size)[q]
  {
    CandidatesSymmetric(size, p, q);
  }

  // ---------------------------------------------------------------------
  // The board value
  // ---------------------------------------------------------------------

  /**
   * A board: its size, the cell array and the neighbour table. The source's
   * `visited` scratch array is local to the flood fill in this model.
   */
  datatype Board = Board(size: nat, cells: seq<Cell>, neighbors: seq<seq<int>>)

  /** The array lengths and the neighbour table are those the constructor builds. */
  predicate Shaped(b: Board) {
    |b.cells| == MaxPoint(b.size) && b.neighbors == NeighborTable(b.size)
  }

  /** Exactly the non-playable cells hold BORDER. */
  predicate BorderIntact(b: Board) {
    BorderRing(b.size, b.cells)
  }

  /** `Board(size)`: an empty playable area inside a BORDER ring. */
  function NewBoard(size: nat): (b: Board)
    ensures b.size == size && Shaped(b) && BorderIntact(b)
    ensures forall p :: 0 <= p < |b.cells| ==> (b.cells[p] == Empty <==> Playable(size, p))
  {
    Board(size, InitialCells(size), NeighborTable(size))
  }

  /** `__copy__`: a fresh board of the same size that takes over the cells. */
  function Copy(b: Board): (c: Board)
    requires Shaped(b)
    ensures c == b
  {
    NewBoard(b.size).(cells := b.cells)
  }
}

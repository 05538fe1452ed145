/** The board model of the tic-tac-toe engine: a 3x3 grid of integer marks,
    the empty-cell enumeration, and the eight winning lines. */
module Boards {

  const HUMAN: int := -1
  const COMP: int := 1
  const EMPTY: int := 0

  /** A board as the engine sees it: three rows of three integers.
      Cell values are not restricted by the type, as in the source. */
  type Board = b: seq<seq<int>> | |b| == 3 && forall r | 0 <= r < 3 :: |b[r]| == 3
    witness [[0, 0, 0], [0, 0, 0], [0, 0, 0]]

  /** A (row, column) coordinate. */
  type Coord = (int, int)

  predicate InRange(c: Coord) {
    0 <= c.0 < 3 && 0 <= c.1 < 3
  }

  /** Every cell holds one of the three legal marks. */
  predicate ValidMarks(b: Board) {
    forall r, c | 0 <= r < 3 && 0 <= c < 3 :: b[r][c] in {HUMAN, EMPTY, COMP}
  }

  /** Strict row-major order on coordinates. */
  predicate Before(p: Coord, q: Coord) {
    p.0 < q.0 || (p.0 == q.0 && p.1 < q.1)
  }

  function EmptyBoard(): (b: Board)
    ensures forall r, c | 0 <= r < 3 && 0 <= c < 3 :: b[r][c] == EMPTY
  {
    [[EMPTY, EMPTY, EMPTY], [EMPTY, EMPTY, EMPTY], [EMPTY, EMPTY, EMPTY]]
  }

  /** The board with mark v written into cell (x, y). */
  function Place(b: Board, x: int, y: int, v: int): (r: Board)
    requires 0 <= x < 3 && 0 <= y < 3
    ensures r[x][y] == v
    ensures forall i, j | 0 <= i < 3 && 0 <= j < 3 && (i, j) != (x, y) :: r[i][j] == b[i][j]
  {
    b[x := b[x][y := v]]
  }

  /** The cells (x, 0), ..., (x, n - 1) of row x that hold v, left to right. */
  function RowCells(b: Board, v: int, x: int, n: int): (cs: seq<Coord>)
    requires 0 <= x < 3 && 0 <= n <= 3
    ensures |cs| <= n
    ensures forall k | 0 <= k < |cs| :: cs[k].0 == x && 0 <= cs[k].1 < n && b[x][cs[k].1] == v
  {
    if n == 0 then []
    else RowCells(b, v, x, n - 1) + (if b[x][n - 1] == v then [(x, n - 1)] else [])
  }

  /** The cells of rows 0, ..., m - 1 that hold v, in row-major order. */
  function Cells(b: Board, v: int, m: int): (cs: seq<Coord>)
    requires 0 <= m <= 3
    ensures |cs| <= 3 * m
    ensures forall k | 0 <= k < |cs| :: 0 <= cs[k].0 < m && 0 <= cs[k].1 < 3 && b[cs[k].0][cs[k].1] == v
  {
    if m == 0 then [] else Cells(b, v, m - 1) + RowCells(b, v, m - 1, 3)
  }

  /** What empty_cells returns: every EMPTY coordinate, in row-major order. */
  function EmptyCellsOf(b: Board): (cs: seq<Coord>)
    ensures |cs| <= 9
    ensures forall k | 0 <= k < |cs| :: InRange(cs[k]) && b[cs[k].0][cs[k].1] == EMPTY
  {
    Cells(b, EMPTY, 3)
  }

  // ---------------------------------------------------------------------------
  // Properties of the cell enumeration

  lemma {:induction false} RowCellsComplete(b: Board, v: int, x: int, n: int, y: int)
    requires 0 <= x < 3 && 0 <= n <= 3 && 0 <= y < n && b[x][y] == v
    ensures (x, y) in RowCells(b, v, x, n)
  {
    if y < n - 1 {
      RowCellsComplete(b, v, x, n - 1, y);
    }
  }

  lemma {:induction false} CellsComplete(b: Board, v: int, m: int, x: int, y: int)
    requires 0 <= m <= 3 && 0 <= x < m && 0 <= y < 3 && b[x][y] == v
    ensures (x, y) in Cells(b, v, m)
  {
    if x < m - 1 {
      CellsComplete(b, v, m - 1, x, y);
    } else {
      RowCellsComplete(b, v, x, 3, y);
    }
  }

  lemma {:induction false} RowCellsOrdered(b: Board, v: int, x: int, n: int)
    requires 0 <= x < 3 && 0 <= n <= 3
    ensures forall i, j | 0 <= i < j < |RowCells(b, v, x, n)| ::
      RowCells(b, v, x, n)[i].1 < RowCells(b, v, x, n)[j].1
  {
    if n > 0 {
      RowCellsOrdered(b, v, x, n - 1);
    }
  }

  lemma {:induction false} CellsOrdered(b: Board, v: int, m: int)
    requires 0 <= m <= 3
    ensures forall i, j | 0 <= i < j < |Cells(b, v, m)| :: Before(Cells(b, v, m)[i], Cells(b, v, m)[j])
  {
    if m > 0 {
      CellsOrdered(b, v, m - 1);
      RowCellsOrdered(b, v, m - 1, 3);
      var front, row := Cells(b, v, m - 1), RowCells(b, v, m - 1, 3);
      assert Cells(b, v, m) == front + row;
      forall i, j | 0 <= i < j < |front + row|
        ensures Before((front + row)[i], (front + row)[j])
      {
        if j < |front| {
        } else if i < |front| {
          assert (front + row)[i] == front[i] && (front + row)[j] == row[j - |front|];
        } else {
          assert (front + row)[i] == row[i - |front|] && (front + row)[j] == row[j - |front|];
        }
      }
    }
  }

  /** empty_cells lists exactly the EMPTY coordinates, each once, in row-major order. */
  lemma EmptyCellsExact(b: Board)
    ensures forall c :: c in EmptyCellsOf(b) <==> InRange(c) && b[c.0][c.1] == EMPTY
    ensures forall i, j | 0 <= i < j < |EmptyCellsOf(b)| :: Before(EmptyCellsOf(b)[i], EmptyCellsOf(b)[j])
    ensures forall i, j | 0 <= i < j < |EmptyCellsOf(b)| :: EmptyCellsOf(b)[i] != EmptyCellsOf(b)[j]
  {
    forall c | InRange(c) && b[c.0][c.1] == EMPTY
      ensures c in EmptyCellsOf(b)
    {
      CellsComplete(b, EMPTY, 3, c.0, c.1);
    }
    CellsOrdered(b, EMPTY, 3);
  }

  lemma {:induction false} RowCountsSum(b: Board, x: int, n: int)
    requires 0 <= x < 3 && 0 <= n <= 3
    requires forall y | 0 <= y < n :: b[x][y] in {HUMAN, EMPTY, COMP}
    ensures |RowCells(b, EMPTY, x, n)| + |RowCells(b, HUMAN, x, n)| + |RowCells(b, COMP, x, n)| == n
  {
    if n > 0 {
      RowCountsSum(b, x, n - 1);
    }
  }

  lemma {:induction false} CountsSum(b: Board, m: int)
    requires 0 <= m <= 3 && ValidMarks(b)
    ensures |Cells(b, EMPTY, m)| + |Cells(b, HUMAN, m)| + |Cells(b, COMP, m)| == 3 * m
  {
    if m > 0 {
      CountsSum(b, m - 1);
      RowCountsSum(b, m - 1, 3);
    }
  }

  /** On a board of legal marks, empty + HUMAN + COMP cells make nine. */
  lemma EmptyCellsCount(b: Board)
    requires ValidMarks(b)
    ensures |EmptyCellsOf(b)| + |Cells(b, HUMAN, 3)| + |Cells(b, COMP, 3)| == 9
  {
    CountsSum(b, 3);
  }

  lemma {:induction false} FullRow(b: Board, v: int, x: int, n: int)
    requires 0 <= x < 3 && 0 <= n <= 3 && |RowCells(b, v, x, n)| == n
    ensures forall y | 0 <= y < n :: b[x][y] == v
  {
    if n > 0 {
      FullRow(b, v, x, n - 1);
    }
  }

  lemma {:induction false} FullRows(b: Board, v: int, m: int)
    requires 0 <= m <= 3 && |Cells(b, v, m)| == 3 * m
    ensures forall x, y | 0 <= x < m && 0 <= y < 3 :: b[x][y] == v
  {
    if m > 0 {
      FullRows(b, v, m - 1);
      FullRow(b, v, m - 1, 3);
    }
  }

  /** Nine empty cells means the board is the empty board. */
  lemma NineEmptyMeansEmptyBoard(b: Board)
    requires |EmptyCellsOf(b)| == 9
    ensures b == EmptyBoard()
  {
    FullRows(b, EMPTY, 3);
    assert b[0] == EmptyBoard()[0] && b[1] == EmptyBoard()[1] && b[2] == EmptyBoard()[2];
  }

  lemma {:induction false} PlaceRowCells(b: Board, x: int, y: int, v: int, r: int, n: int)
    requires 0 <= x < 3 && 0 <= y < 3 && b[x][y] == EMPTY && v != EMPTY
    requires 0 <= r < 3 && 0 <= n <= 3
    ensures |RowCells(Place(b, x, y, v), EMPTY, r, n)|
         == |RowCells(b, EMPTY, r, n)| - (if r == x && y < n then 1 else 0)
  {
    if n > 0 {
      PlaceRowCells(b, x, y, v, r, n - 1);
    }
  }

  lemma {:induction false} PlaceCells(b: Board, x: int, y: int, v: int, m: int)
    requires 0 <= x < 3 && 0 <= y < 3 && b[x][y] == EMPTY && v != EMPTY
    requires 0 <= m <= 3
    ensures |Cells(Place(b, x, y, v), EMPTY, m)| == |Cells(b, EMPTY, m)| - (if x < m then 1 else 0)
  {
    if m > 0 {
      PlaceCells(b, x, y, v, m - 1);
      PlaceRowCells(b, x, y, v, m - 1, 3);
    }
  }

  /** Marking an empty cell removes exactly one coordinate from the enumeration. */
  lemma PlaceShrinksEmptyCells(b: Board, x: int, y: int, v: int)
    requires 0 <= x < 3 && 0 <= y < 3 && b[x][y] == EMPTY && v != EMPTY
    ensures |EmptyCellsOf(Place(b, x, y, v))| == |EmptyCellsOf(b)| - 1
    ensures forall c :: c in EmptyCellsOf(Place(b, x, y, v)) <==> c in EmptyCellsOf(b) && c != (x, y)
  {
    PlaceCells(b, x, y, v, 3);
    EmptyCellsExact(b);
    EmptyCellsExact(Place(b, x, y, v));
  }

  /** The empty board offers all nine cells, in row-major order, and nobody has won on it. */
  lemma EmptyBoardCells()
    ensures EmptyCellsOf(EmptyBoard())
         == [(0, 0), (0, 1), (0, 2), (1, 0), (1, 1), (1, 2), (2, 0), (2, 1), (2, 2)]
    ensures !GameOver(EmptyBoard())
  {
  }

  // ---------------------------------------------------------------------------
  // Lines and wins

  /** One of the eight fixed winning triples of coordinates. */
  datatype Line = Line(p: Coord, q: Coord, s: Coord)

  const LINES: seq<Line> := [
    Line((0, 0), (0, 1), (0, 2)),
    Line((1, 0), (1, 1), (1, 2)),
    Line((2, 0), (2, 1), (2, 2)),
    Line((0, 0), (1, 0), (2, 0)),
    Line((0, 1), (1, 1), (2, 1)),
    Line((0, 2), (1, 2), (2, 2)),
    Line((0, 0), (1, 1), (2, 2)),
    Line((2, 0), (1, 1), (0, 2))
  ]

  /** The three cells of line l all hold player. */
  predicate Completes(b: Board, player: int, l: Line)
    requires InRange(l.p) && InRange(l.q) && InRange(l.s)
  {
    b[l.p.0][l.p.1] == player && b[l.q.0][l.q.1] == player && b[l.s.0][l.s.1] == player
  }

  /** The contents of the eight lines, listed as wins builds them. */
  function WinState(b: Board): (w: seq<seq<int>>)
    ensures |w| == 8
  {
    [
      [b[0][0], b[0][1], b[0][2]],
      [b[1][0], b[1][1], b[1][2]],
      [b[2][0], b[2][1], b[2][2]],
      [b[0][0], b[1][0], b[2][0]],
      [b[0][1], b[1][1], b[2][1]],
      [b[0][2], b[1][2], b[2][2]],
      [b[0][0], b[1][1], b[2][2]],
      [b[2][0], b[1][1], b[0][2]]
    ]
  }

  predicate Wins(b: Board, player: int) {
    [player, player, player] in WinState(b)
  }

  predicate GameOver(b: Board) {
    Wins(b, HUMAN) || Wins(b, COMP)
  }

  /** Entry i of the win state lists the three cells of LINES[i]. */
  lemma WinStateLine(b: Board, i: int)
    requires 0 <= i < 8
    ensures var l := LINES[i];
      WinState(b)[i] == [b[l.p.0][l.p.1], b[l.q.0][l.q.1], b[l.s.0][l.s.1]]
  {
  }

  /** wins holds exactly when one of the eight lines is entirely the player's. */
  lemma WinsIffLine(b: Board, player: int)
    ensures Wins(b, player) <==> exists i | 0 <= i < |LINES| :: Completes(b, player, LINES[i])
  {
    var w := WinState(b);
    if Wins(b, player) {
      var i :| 0 <= i < 8 && w[i] == [player, player, player];
      WinStateLine(b, i);
      assert Completes(b, player, LINES[i]);
    }
    forall i | 0 <= i < |LINES| && Completes(b, player, LINES[i])
      ensures Wins(b, player)
    {
      WinStateLine(b, i);
      assert w[i] == [player, player, player];
    }
  }

  /** On a board of legal marks, the game is over exactly when some line holds
      three equal marks other than EMPTY. */
  lemma GameOverIffUniformLine(b: Board)
    requires ValidMarks(b)
    ensures GameOver(b) <==> exists i | 0 <= i < |LINES| ::
      b[LINES[i].p.0][LINES[i].p.1] != EMPTY && Completes(b, b[LINES[i].p.0][LINES[i].p.1], LINES[i])
  {
    WinsIffLine(b, HUMAN);
    WinsIffLine(b, COMP);
    if exists i | 0 <= i < |LINES| ::
      b[LINES[i].p.0][LINES[i].p.1] != EMPTY && Completes(b, b[LINES[i].p.0][LINES[i].p.1], LINES[i])
    {
      var i :| 0 <= i < |LINES| &&
        b[LINES[i].p.0][LINES[i].p.1] != EMPTY && Completes(b, b[LINES[i].p.0][LINES[i].p.1], LINES[i]);
      var m := b[LINES[i].p.0][LINES[i].p.1];
      assert m == HUMAN || m == COMP;
    }
  }

  // ---------------------------------------------------------------------------
  // The board held in an array, as the search mutates it

  function Snapshot(a: array2<int>): (b: Board)
    requires a.Length0 == 3 && a.Length1 == 3
    reads a
    ensures forall r, c | 0 <= r < 3 && 0 <= c < 3 :: b[r][c] == a[r, c]
  {
    [[a[0, 0], a[0, 1], a[0, 2]], [a[1, 0], a[1, 1], a[1, 2]], [a[2, 0], a[2, 1], a[2, 2]]]
  }

  /** A full row of the enumeration, written out cell by cell. */
  lemma RowCellsThree(b: Board, v: int, x: int)
    requires 0 <= x < 3
    ensures RowCells(b, v, x, 3)
         == (if b[x][0] == v then [(x, 0)] else [])
          + (if b[x][1] == v then [(x, 1)] else [])
          + (if b[x][2] == v then [(x, 2)] else [])
  {
    assert RowCells(b, v, x, 1) == (if b[x][0] == v then [(x, 0)] else []);
  }

  /** A row with no cell holding v contributes nothing. */
  lemma RowCellsNone(b: Board, v: int, x: int)
    requires 0 <= x < 3 && b[x][0] != v && b[x][1] != v && b[x][2] != v
    ensures RowCells(b, v, x, 3) == []
  {
    RowCellsThree(b, v, x);
  }

  /** A row whose last cell alone holds v contributes that cell. */
  lemma RowCellsLast(b: Board, v: int, x: int)
    requires 0 <= x < 3 && b[x][0] != v && b[x][1] != v && b[x][2] == v
    ensures RowCells(b, v, x, 3) == [(x, 2)]
  {
    RowCellsThree(b, v, x);
  }

  /** A row holding v throughout contributes all three cells, left to right. */
  lemma RowCellsAll(b: Board, v: int, x: int)
    requires 0 <= x < 3 && b[x][0] == v && b[x][1] == v && b[x][2] == v
    ensures RowCells(b, v, x, 3) == [(x, 0), (x, 1), (x, 2)]
  {
    RowCellsThree(b, v, x);
  }

  /** The enumeration of the whole board, written out row by row. */
  lemma CellsThree(b: Board, v: int)
    ensures Cells(b, v, 3) == RowCells(b, v, 0, 3) + RowCells(b, v, 1, 3) + RowCells(b, v, 2, 3)
  {
    assert Cells(b, v, 1) == RowCells(b, v, 0, 3);
  }

  /** Boards are equal when they agree cell by cell. */
  lemma SameCells(b: Board, d: Board)
    requires forall r, c | 0 <= r < 3 && 0 <= c < 3 :: b[r][c] == d[r][c]
    ensures b == d
  {
    assert b[0] == d[0] && b[1] == d[1] && b[2] == d[2];
  }

  /** empty_cells: walk the rows and columns, appending each EMPTY coordinate. */
  method EmptyCells(a: array2<int>) returns (cells: seq<Coord>)
    requires a.Length0 == 3 && a.Length1 == 3
    ensures cells == EmptyCellsOf(Snapshot(a))
  {
    ghost var b := Snapshot(a);
    cells := [];
    var x := 0;
    while x < 3
      invariant 0 <= x <= 3
      invariant cells == Cells(b, EMPTY, x)
    {
      var y := 0;
      while y < 3
        invariant 0 <= y <= 3
        invariant cells == Cells(b, EMPTY, x) + RowCells(b, EMPTY, x, y)
      {
        if a[x, y] == EMPTY {
          cells := cells + [(x, y)];
        }
        y := y + 1;
      }
      x := x + 1;
    }
  }
}

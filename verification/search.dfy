/** The search engine of the tic-tac-toe engine: scoring, the exhaustive
    minimax search and the machine's move choice. */
module Search {
  import opened Boards

  /** Integer stand-ins for the source's -inf and +inf starting scores.
      Every real score lies in -1..1, so comparisons against them come out
      as they do against the infinities. */
  const NEG_INF: int := -2
  const POS_INF: int := 2

  /** +1 when COMP has a line (checked first), -1 when only HUMAN has one, else 0. */
  function Evaluate(b: Board): (r: int)
    ensures r in {-1, 0, 1}
    ensures r != 0 <==> GameOver(b)
  {
    if Wins(b, COMP) then 1
    else if Wins(b, HUMAN) then -1
    else 0
  }

  /** evaluate looks at COMP first: a board with lines for both players scores +1. */
  lemma EvaluateCases(b: Board)
    ensures Wins(b, COMP) ==> Evaluate(b) == 1
    ensures Evaluate(b) == -1 <==> Wins(b, HUMAN) && !Wins(b, COMP)
    ensures Evaluate(b) == 0 <==> !GameOver(b)
  {
  }

  /** The list [row, col, score] that minimax returns. */
  datatype SearchResult = SearchResult(row: int, col: int, score: int)

  predicate IsPlayer(player: int) {
    player == HUMAN || player == COMP
  }

  /** The running best before any cell has been tried. */
  function Initial(player: int): SearchResult {
    if player == COMP then SearchResult(-1, -1, NEG_INF) else SearchResult(-1, -1, POS_INF)
  }

  /** minimax(state, depth, player) as a value: the board is passed by value,
      so the in-place place-and-revert becomes Place. */
  function Minimax(b: Board, depth: int, player: int): (r: SearchResult)
    requires depth >= 0 && IsPlayer(player)
    ensures NEG_INF <= r.score <= POS_INF
    decreases depth, 1, 0
  {
    if depth == 0 || GameOver(b) then SearchResult(-1, -1, Evaluate(b))
    else Scan(b, depth, player, |EmptyCellsOf(b)|)
  }

  /** The score minimax obtains for the i-th empty cell: mark it for player
      and search one ply less for the opponent. */
  function ChildScore(b: Board, depth: int, player: int, i: int): (s: int)
    requires depth >= 1 && IsPlayer(player) && 0 <= i < |EmptyCellsOf(b)|
    ensures NEG_INF <= s <= POS_INF
    decreases depth, 0, 0
  {
    var c := EmptyCellsOf(b)[i];
    Minimax(Place(b, c.0, c.1, player), depth - 1, -player).score
  }

  /** The running best after the loop of minimax has tried the first n empty
      cells: a later cell replaces it only with a strictly better score. */
  function Scan(b: Board, depth: int, player: int, n: int): (r: SearchResult)
    requires depth >= 1 && IsPlayer(player) && 0 <= n <= |EmptyCellsOf(b)|
    ensures NEG_INF <= r.score <= POS_INF
    decreases depth, 0, n
  {
    if n == 0 then Initial(player)
    else
      var best := Scan(b, depth, player, n - 1);
      var c := EmptyCellsOf(b)[n - 1];
      var s := ChildScore(b, depth, player, n - 1);
      if player == COMP then
        if s > best.score then SearchResult(c.0, c.1, s) else best
      else
        if s < best.score then SearchResult(c.0, c.1, s) else best
  }

  // ---------------------------------------------------------------------------
  // What the search computes

  lemma {:induction false} ScanBest(b: Board, depth: int, player: int, n: int)
    requires depth >= 1 && IsPlayer(player) && 0 <= n <= |EmptyCellsOf(b)|
    ensures player == COMP ==> forall j | 0 <= j < n :: ChildScore(b, depth, player, j) <= Scan(b, depth, player, n).score
    ensures player == HUMAN ==> forall j | 0 <= j < n :: ChildScore(b, depth, player, j) >= Scan(b, depth, player, n).score
    ensures var r := Scan(b, depth, player, n);
      r == Initial(player) ||
      exists i | 0 <= i < n ::
        r.score != Initial(player).score &&
        EmptyCellsOf(b)[i] == (r.row, r.col) && ChildScore(b, depth, player, i) == r.score &&
        forall j | 0 <= j < i :: ChildScore(b, depth, player, j) != r.score
  {
    if n > 0 {
      ScanBest(b, depth, player, n - 1);
      var prev := Scan(b, depth, player, n - 1);
      var r := Scan(b, depth, player, n);
      var s := ChildScore(b, depth, player, n - 1);
      if r != prev {
        // the n-th cell replaced the running best with a strictly better score
        assert r == SearchResult(EmptyCellsOf(b)[n - 1].0, EmptyCellsOf(b)[n - 1].1, s);
        assert player == COMP ==> s > prev.score >= Initial(player).score;
        assert player == HUMAN ==> s < prev.score <= Initial(player).score;
        assert forall j | 0 <= j < n - 1 :: ChildScore(b, depth, player, j) != r.score;
      }
    }
  }

  /** The recursive case of minimax: for COMP the score is the largest child
      score, for HUMAN the smallest, and the move is the first empty cell in
      row-major order that reaches it. When no cell beats the starting
      sentinel, the start value (-1, -1, -inf/+inf) itself comes back, never
      a cell paired with the sentinel; the score is still attained by some
      cell whenever there is one. */
  lemma MinimaxBestMove(b: Board, depth: int, player: int)
    requires depth >= 1 && IsPlayer(player) && !GameOver(b)
    ensures var r := Minimax(b, depth, player);
      (player == COMP ==> forall j | 0 <= j < |EmptyCellsOf(b)| :: ChildScore(b, depth, player, j) <= r.score) &&
      (player == HUMAN ==> forall j | 0 <= j < |EmptyCellsOf(b)| :: ChildScore(b, depth, player, j) >= r.score) &&
      (r == Initial(player) ||
       exists i | 0 <= i < |EmptyCellsOf(b)| ::
         r.score != Initial(player).score &&
         EmptyCellsOf(b)[i] == (r.row, r.col) && ChildScore(b, depth, player, i) == r.score &&
         forall j | 0 <= j < i :: ChildScore(b, depth, player, j) != r.score)
    ensures |EmptyCellsOf(b)| > 0 ==>
      exists j | 0 <= j < |EmptyCellsOf(b)| :: ChildScore(b, depth, player, j) == Minimax(b, depth, player).score
  {
    ScanBest(b, depth, player, |EmptyCellsOf(b)|);
    if |EmptyCellsOf(b)| > 0 {
      assert NEG_INF <= ChildScore(b, depth, player, 0) <= POS_INF;
    }
  }

  /** The base case of minimax: no plies left, or somebody has already won. */
  lemma MinimaxLeaf(b: Board, depth: int, player: int)
    requires depth >= 0 && IsPlayer(player) && (depth == 0 || GameOver(b))
    ensures Minimax(b, depth, player) == SearchResult(-1, -1, Evaluate(b))
    ensures Minimax(b, depth, player).score in {-1, 0, 1}
  {
  }

  /** With depth equal to the number of empty cells (as ai_choice calls it),
      the score is a real outcome and, unless the position is already
      decided or full, the move is an empty cell of the board. */
  lemma {:induction false} MinimaxFullDepth(b: Board, player: int)
    requires IsPlayer(player)
    ensures var r := Minimax(b, |EmptyCellsOf(b)|, player);
      r.score in {-1, 0, 1} &&
      (|EmptyCellsOf(b)| > 0 && !GameOver(b) ==> (r.row, r.col) in EmptyCellsOf(b))
    decreases |EmptyCellsOf(b)|
  {
    var cells := EmptyCellsOf(b);
    var depth := |cells|;
    if depth > 0 && !GameOver(b) {
      forall i | 0 <= i < depth
        ensures ChildScore(b, depth, player, i) in {-1, 0, 1}
      {
        var c := cells[i];
        PlaceShrinksEmptyCells(b, c.0, c.1, player);
        MinimaxFullDepth(Place(b, c.0, c.1, player), -player);
      }
      MinimaxBestMove(b, depth, player);
      assert Minimax(b, depth, player) != Initial(player) by {
        assert ChildScore(b, depth, player, 0) in {-1, 0, 1};
      }
    }
  }

  /** If marking some empty cell completes a line for COMP, the search for COMP
      scores +1 and picks that cell or an earlier one in row-major order. */
  lemma ImmediateWin(b: Board, i: int)
    requires !GameOver(b) && 0 <= i < |EmptyCellsOf(b)|
    requires Wins(Place(b, EmptyCellsOf(b)[i].0, EmptyCellsOf(b)[i].1, COMP), COMP)
    ensures var r := Minimax(b, |EmptyCellsOf(b)|, COMP);
      r.score == 1 && exists k | 0 <= k <= i :: EmptyCellsOf(b)[k] == (r.row, r.col)
  {
    var depth := |EmptyCellsOf(b)|;
    var c := EmptyCellsOf(b)[i];
    assert ChildScore(b, depth, COMP, i) == 1;
    MinimaxFullDepth(b, COMP);
    MinimaxBestMove(b, depth, COMP);
  }

  // ---------------------------------------------------------------------------
  // The search on the caller's board, mutated and restored in place

  method MinimaxSearch(a: array2<int>, depth: int, player: int) returns (best: SearchResult)
    requires a.Length0 == 3 && a.Length1 == 3
    requires depth >= 0 && IsPlayer(player)
    modifies a
    ensures Snapshot(a) == old(Snapshot(a))
    ensures best == Minimax(old(Snapshot(a)), depth, player)
    decreases depth
  {
    ghost var b := Snapshot(a);
    if depth == 0 || GameOver(Snapshot(a)) {
      return SearchResult(-1, -1, Evaluate(Snapshot(a)));
    }
    best := Initial(player);
    var cells := EmptyCells(a);
    var i := 0;
    while i < |cells|
      invariant 0 <= i <= |cells| && cells == EmptyCellsOf(b)
      invariant Snapshot(a) == b
      invariant best == Scan(b, depth, player, i)
    {
      var (x, y) := cells[i];
      a[x, y] := player;
      SameCells(Snapshot(a), Place(b, x, y, player));
      var score := MinimaxSearch(a, depth - 1, -player);
      assert score.score == ChildScore(b, depth, player, i);
      a[x, y] := EMPTY;
      SameCells(Snapshot(a), b);
      score := score.(row := x, col := y);
      if player == COMP {
        if score.score > best.score {
          best := score;
        }
      } else {
        if score.score < best.score {
          best := score;
        }
      }
      i := i + 1;
    }
  }

  // ---------------------------------------------------------------------------
  // The machine's move

  /** ai_choice as a value. The random opening cell is passed in as
      (openRow, openCol); everything else is determined by the board. */
  function Choice(b: Board, openRow: int, openCol: int): (m: Coord)
    requires 0 <= openRow <= 2 && 0 <= openCol <= 2
    ensures m == (-1, -1) || InRange(m)
  {
    var depth := |EmptyCellsOf(b)|;
    if depth == 0 || GameOver(b) then (-1, -1)
    else if depth == 9 then (openRow, openCol)
    else
      var r := Minimax(b, depth, COMP);
      MinimaxFullDepth(b, COMP);
      (r.row, r.col)
  }

  /** ai_choice answers (-1, -1) exactly when no cell is empty or the game is
      over; otherwise it answers an empty cell: the random one on an empty
      board, the minimax move for COMP on any other. */
  lemma ChoiceCases(b: Board, openRow: int, openCol: int)
    requires 0 <= openRow <= 2 && 0 <= openCol <= 2
    ensures var m := Choice(b, openRow, openCol);
      (m == (-1, -1) <==> |EmptyCellsOf(b)| == 0 || GameOver(b)) &&
      (b == EmptyBoard() ==> m == (openRow, openCol)) &&
      (m != (-1, -1) ==> m in EmptyCellsOf(b)) &&
      (m != (-1, -1) && b != EmptyBoard() ==>
        var r := Minimax(b, |EmptyCellsOf(b)|, COMP); m == (r.row, r.col))
  {
    var depth := |EmptyCellsOf(b)|;
    EmptyBoardCells();
    EmptyCellsExact(b);
    MinimaxFullDepth(b, COMP);
    if depth == 9 {
      NineEmptyMeansEmptyBoard(b);
    }
  }

  /** A board whose right column and bottom row are the only empty cells
      lists them in row-major order, whatever marks fill the other four. */
  lemma OpenCornerCells(b: Board)
    requires b[0][0] != EMPTY && b[0][1] != EMPTY && b[0][2] == EMPTY
    requires b[1][0] != EMPTY && b[1][1] != EMPTY && b[1][2] == EMPTY
    requires b[2] == [EMPTY, EMPTY, EMPTY]
    ensures EmptyCellsOf(b) == [(0, 2), (1, 2), (2, 0), (2, 1), (2, 2)]
  {
    calc {
      EmptyCellsOf(b);
    == { CellsThree(b, EMPTY); }
      RowCells(b, EMPTY, 0, 3) + RowCells(b, EMPTY, 1, 3) + RowCells(b, EMPTY, 2, 3);
    == { RowCellsLast(b, EMPTY, 0); RowCellsLast(b, EMPTY, 1); RowCellsAll(b, EMPTY, 2); }
      [(0, 2)] + [(1, 2)] + [(2, 0), (2, 1), (2, 2)];
    ==
      [(0, 2), (1, 2), (2, 0), (2, 1), (2, 2)];
    }
  }

  lemma WinningExampleMove(b: Board)
    requires b == [[COMP, COMP, EMPTY], [HUMAN, HUMAN, EMPTY], [EMPTY, EMPTY, EMPTY]]
    ensures !GameOver(b) && Wins(Place(b, 0, 2, COMP), COMP)
  {
    assert WinState(Place(b, 0, 2, COMP))[0] == [COMP, COMP, COMP];
  }

  /** Facing [[COMP, COMP, _], [HUMAN, HUMAN, _], [_, _, _]], the machine
      completes the top row, whatever the random source would say. */
  lemma TakesTheWin(b: Board, openRow: int, openCol: int)
    requires b == [[COMP, COMP, EMPTY], [HUMAN, HUMAN, EMPTY], [EMPTY, EMPTY, EMPTY]]
    requires 0 <= openRow <= 2 && 0 <= openCol <= 2
    ensures Choice(b, openRow, openCol) == (0, 2)
  {
    OpenCornerCells(b);
    WinningExampleMove(b);
    ImmediateWin(b, 0);
  }

  lemma BottomRowReplyCells(g: Board)
    requires g[0] == [HUMAN, HUMAN, COMP] && g[1] == [COMP, COMP, EMPTY]
    ensures |EmptyCellsOf(g)| > 0 && EmptyCellsOf(g)[0] == (1, 2)
  {
    calc {
      EmptyCellsOf(g);
    == { CellsThree(g, EMPTY); }
      RowCells(g, EMPTY, 0, 3) + RowCells(g, EMPTY, 1, 3) + RowCells(g, EMPTY, 2, 3);
    == { RowCellsNone(g, EMPTY, 0); RowCellsLast(g, EMPTY, 1); }
      [] + [(1, 2)] + RowCells(g, EMPTY, 2, 3);
    }
  }

  lemma BottomRowReplyOpen(g: Board)
    requires g[0] == [HUMAN, HUMAN, COMP] && g[1] == [COMP, COMP, EMPTY]
    requires g[2] in {[HUMAN, EMPTY, EMPTY], [EMPTY, HUMAN, EMPTY], [EMPTY, EMPTY, HUMAN]}
    ensures !GameOver(g) && Wins(Place(g, 1, 2, COMP), COMP)
  {
    assert WinState(Place(g, 1, 2, COMP))[1] == [COMP, COMP, COMP];
  }

  /** In [[HUMAN, HUMAN, COMP], [COMP, COMP, _], row 2 with one HUMAN mark],
      COMP completes row 1 at (1, 2), the first empty cell. */
  lemma ReplyInBottomRowLoses(g: Board)
    requires g[0] == [HUMAN, HUMAN, COMP] && g[1] == [COMP, COMP, EMPTY]
    requires g[2] in {[HUMAN, EMPTY, EMPTY], [EMPTY, HUMAN, EMPTY], [EMPTY, EMPTY, HUMAN]}
    ensures Minimax(g, |EmptyCellsOf(g)|, COMP).score == 1
  {
    BottomRowReplyCells(g);
    BottomRowReplyOpen(g);
    ImmediateWin(g, 0);
  }

  lemma RowOneReplyCells(g: Board)
    requires g == [[HUMAN, HUMAN, COMP], [COMP, COMP, HUMAN], [EMPTY, EMPTY, EMPTY]]
    ensures |EmptyCellsOf(g)| > 0 && EmptyCellsOf(g)[0] == (2, 0)
  {
    calc {
      EmptyCellsOf(g);
    == { CellsThree(g, EMPTY); }
      RowCells(g, EMPTY, 0, 3) + RowCells(g, EMPTY, 1, 3) + RowCells(g, EMPTY, 2, 3);
    == { RowCellsNone(g, EMPTY, 0); RowCellsNone(g, EMPTY, 1); RowCellsAll(g, EMPTY, 2); }
      [] + [] + [(2, 0), (2, 1), (2, 2)];
    ==
      [(2, 0), (2, 1), (2, 2)];
    }
  }

  lemma RowOneReplyOpen(g: Board)
    requires g == [[HUMAN, HUMAN, COMP], [COMP, COMP, HUMAN], [EMPTY, EMPTY, EMPTY]]
    ensures !GameOver(g) && Wins(Place(g, 2, 0, COMP), COMP)
  {
    assert WinState(Place(g, 2, 0, COMP))[7] == [COMP, COMP, COMP];
  }

  /** In [[HUMAN, HUMAN, COMP], [COMP, COMP, HUMAN], [_, _, _]], COMP
      completes the anti-diagonal at (2, 0), the first empty cell. */
  lemma ReplyAtRowOneLoses(g: Board)
    requires g == [[HUMAN, HUMAN, COMP], [COMP, COMP, HUMAN], [EMPTY, EMPTY, EMPTY]]
    ensures Minimax(g, |EmptyCellsOf(g)|, COMP).score == 1
  {
    RowOneReplyCells(g);
    RowOneReplyOpen(g);
    ImmediateWin(g, 0);
  }

  lemma ForkCells(c: Board)
    requires c[0] == [HUMAN, HUMAN, COMP] && c[1] == [COMP, COMP, EMPTY] && c[2] == [EMPTY, EMPTY, EMPTY]
    ensures EmptyCellsOf(c) == [(1, 2), (2, 0), (2, 1), (2, 2)]
  {
    calc {
      EmptyCellsOf(c);
    == { CellsThree(c, EMPTY); }
      RowCells(c, EMPTY, 0, 3) + RowCells(c, EMPTY, 1, 3) + RowCells(c, EMPTY, 2, 3);
    == { RowCellsNone(c, EMPTY, 0); RowCellsLast(c, EMPTY, 1); RowCellsAll(c, EMPTY, 2); }
      [] + [(1, 2)] + [(2, 0), (2, 1), (2, 2)];
    ==
      [(1, 2), (2, 0), (2, 1), (2, 2)];
    }
  }

  lemma ForkOpen(c: Board)
    requires c == [[HUMAN, HUMAN, COMP], [COMP, COMP, EMPTY], [EMPTY, EMPTY, EMPTY]]
    ensures !GameOver(c)
  {
  }

  /** The HUMAN reply at the i-th empty cell of the fork position loses. */
  lemma ForkReplyLoses(c: Board, i: int)
    requires c == [[HUMAN, HUMAN, COMP], [COMP, COMP, EMPTY], [EMPTY, EMPTY, EMPTY]]
    requires 0 <= i < 4
    ensures |EmptyCellsOf(c)| == 4 && ChildScore(c, 4, HUMAN, i) == 1
  {
    ForkCells(c);
    var cells := EmptyCellsOf(c);
    var g := Place(c, cells[i].0, cells[i].1, HUMAN);
    PlaceShrinksEmptyCells(c, cells[i].0, cells[i].1, HUMAN);
    if i == 0 {
      SameCells(g, [[HUMAN, HUMAN, COMP], [COMP, COMP, HUMAN], [EMPTY, EMPTY, EMPTY]]);
      ReplyAtRowOneLoses(g);
    } else {
      assert g[0] == c[0] && g[1] == c[1];
      assert g[2] == if i == 1 then [HUMAN, EMPTY, EMPTY] else if i == 2 then [EMPTY, HUMAN, EMPTY] else [EMPTY, EMPTY, HUMAN];
      ReplyInBottomRowLoses(g);
    }
  }

  /** After COMP takes (0, 2) in the fork position, every HUMAN reply leaves a
      COMP line open, so the search for HUMAN still scores +1. */
  lemma ForkHolds(c: Board)
    requires c == [[HUMAN, HUMAN, COMP], [COMP, COMP, EMPTY], [EMPTY, EMPTY, EMPTY]]
    ensures Minimax(c, 4, HUMAN).score == 1
  {
    ForkCells(c);
    ForkOpen(c);
    forall i | 0 <= i < 4
      ensures ChildScore(c, 4, HUMAN, i) == 1
    {
      ForkReplyLoses(c, i);
    }
    MinimaxBestMove(c, 4, HUMAN);
  }

  lemma ForkPositionOpen(b: Board)
    requires b == [[HUMAN, HUMAN, EMPTY], [COMP, COMP, EMPTY], [EMPTY, EMPTY, EMPTY]]
    ensures !GameOver(b)
  {
  }

  /** Taking (0, 2), the first empty cell, leads to the fork position. */
  lemma ForkFirstChild(b: Board)
    requires b == [[HUMAN, HUMAN, EMPTY], [COMP, COMP, EMPTY], [EMPTY, EMPTY, EMPTY]]
    ensures |EmptyCellsOf(b)| == 5 && ChildScore(b, 5, COMP, 0) == 1
  {
    OpenCornerCells(b);
    var c := Place(b, 0, 2, COMP);
    SameCells(c, [[HUMAN, HUMAN, COMP], [COMP, COMP, EMPTY], [EMPTY, EMPTY, EMPTY]]);
    ForkHolds(c);
  }

  /** Facing [[HUMAN, HUMAN, _], [COMP, COMP, _], [_, _, _]], the machine
      plays (0, 2), which both blocks the top row and forks on row 1 and
      the anti-diagonal. It is the first empty cell and scores +1, as does
      the immediate win at (1, 2), and the strict comparison keeps the
      first. */
  lemma TakesTheFork(b: Board, openRow: int, openCol: int)
    requires b == [[HUMAN, HUMAN, EMPTY], [COMP, COMP, EMPTY], [EMPTY, EMPTY, EMPTY]]
    requires 0 <= openRow <= 2 && 0 <= openCol <= 2
    ensures Choice(b, openRow, openCol) == (0, 2)
  {
    OpenCornerCells(b);
    ForkPositionOpen(b);
    ForkFirstChild(b);
    MinimaxFullDepth(b, COMP);
    MinimaxBestMove(b, 5, COMP);
  }

  /** ai_choice on the caller's board; the board is searched in place and
      left as it was. */
  method AiChoice(a: array2<int>, openRow: int, openCol: int) returns (x: int, y: int)
    requires a.Length0 == 3 && a.Length1 == 3
    requires 0 <= openRow <= 2 && 0 <= openCol <= 2
    modifies a
    ensures Snapshot(a) == old(Snapshot(a))
    ensures (x, y) == Choice(old(Snapshot(a)), openRow, openCol)
  {
    var cells := EmptyCells(a);
    var depth := |cells|;
    if depth == 0 || GameOver(Snapshot(a)) {
      return -1, -1;
    }
    if depth == 9 {
      x, y := openRow, openCol;
    } else {
      var best := MinimaxSearch(a, depth, COMP);
      x, y := best.row, best.col;
    }
  }
}

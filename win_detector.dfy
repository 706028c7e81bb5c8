/** Win detection for a 15 x 15 Gomoku board.

    A board is a sequence of 225 marks stored row by row: the cell in row
    `row` and column `col` (both counted from 0) has index `row * SIZE + col`.
    `CalculateWinner` is the scan the game runs; `Winner` is the function it
    computes; `HasFive` is an independent, geometric definition of "this mark
    has five in a row", and the lemmas below tie the two together. */
module WinDetector {

  /** The content of a cell: empty, or a stone of one of the two players. */
  datatype Mark = Empty | Black | White

  /** The four forward directions the scan looks in, in the order it tries them. */
  datatype Direction = Horizontal | Vertical | Diagonal | AntiDiagonal

  const SIZE: int := 15
  const WIN_LENGTH: int := 5
  const CELLS: int := 225

  /** The board every game starts from. */
  function EmptyBoard(): (b: seq<Mark>)
    ensures |b| == CELLS
    ensures forall p :: 0 <= p < CELLS ==> b[p] == Empty
  {
    seq(CELLS, _ => Empty)
  }

  // ---------------------------------------------------------------------------
  // Geometry
  // ---------------------------------------------------------------------------

  /** Row of the `k`-th cell of the line from row `row` in direction `d`. */
  function LineRow(row: int, d: Direction, k: int): int
  {
    if d == Horizontal then row else row + k
  }

  /** Column of the `k`-th cell of the line from column `col` in direction `d`. */
  function LineCol(col: int, d: Direction, k: int): int
  {
    match d
    case Horizontal => col + k
    case Vertical => col
    case Diagonal => col + k
    case AntiDiagonal => col - k
  }

  predicate OnBoard(r: int, c: int)
  {
    0 <= r < SIZE && 0 <= c < SIZE
  }

  /** The stone at row `r`, column `c`; off the board there is none. */
  function StoneAt(b: seq<Mark>, r: int, c: int): Mark
    requires |b| == CELLS
  {
    if OnBoard(r, c) then b[r * SIZE + c] else Empty
  }

  /** The `k`-th stone of the line that starts at (`row`, `col`) and runs in direction `d`. */
  function StoneOnLine(b: seq<Mark>, row: int, col: int, d: Direction, k: int): Mark
    requires |b| == CELLS
  {
    StoneAt(b, LineRow(row, d, k), LineCol(col, d, k))
  }

  /** Five cells of the board, in a straight line from (`row`, `col`) in direction `d`,
      all hold the (non-empty) mark `m`. */
  predicate LineOf(b: seq<Mark>, m: Mark, row: int, col: int, d: Direction)
    requires |b| == CELLS
  {
    m != Empty && forall k :: 0 <= k < WIN_LENGTH ==> StoneOnLine(b, row, col, d, k) == m
  }

  /** Mark `m` has five in a row somewhere on the board. */
  predicate HasFive(b: seq<Mark>, m: Mark)
    requires |b| == CELLS
  {
    exists row, col, d | 0 <= row < SIZE && 0 <= col < SIZE :: LineOf(b, m, row, col, d)
  }

  // ---------------------------------------------------------------------------
  // The scan
  // ---------------------------------------------------------------------------

  /** The bounds test the scan makes before looking in direction `d` from
      (`row`, `col`), so that the run of five does not leave the grid. */
  predicate Guard(row: int, col: int, d: Direction)
  {
    match d
    case Horizontal => col <= SIZE - WIN_LENGTH
    case Vertical => row <= SIZE - WIN_LENGTH
    case Diagonal => row <= SIZE - WIN_LENGTH && col <= SIZE - WIN_LENGTH
    case AntiDiagonal => row <= SIZE - WIN_LENGTH && col >= WIN_LENGTH - 1
  }

  /** The index the scan reads for the `i`-th cell of the run in direction `d`.
      Under the guard every such index lies inside the board, and it is the
      cell `i` steps away from (`row`, `col`) in direction `d`. */
  function Index(row: int, col: int, d: Direction, i: int): (p: int)
    requires OnBoard(row, col) && Guard(row, col, d) && 0 <= i < WIN_LENGTH
    ensures 0 <= p < CELLS
    ensures OnBoard(LineRow(row, d, i), LineCol(col, d, i))
    ensures p == LineRow(row, d, i) * SIZE + LineCol(col, d, i)
  {
    match d
    case Horizontal => row * SIZE + col + i
    case Vertical => (row + i) * SIZE + col
    case Diagonal => (row + i) * SIZE + col + i
    case AntiDiagonal => (row + i) * SIZE + col - i
  }

  /** The scan's test in one direction: the guard holds and the four cells
      after (`row`, `col`) in direction `d` equal the cell itself. */
  predicate RunAt(b: seq<Mark>, row: int, col: int, d: Direction)
    requires |b| == CELLS && OnBoard(row, col)
  {
    Guard(row, col, d) &&
    forall i :: 1 <= i < WIN_LENGTH ==> b[Index(row, col, d, i)] == b[row * SIZE + col]
  }

  /** Cell `p` is occupied and one of the four directional tests succeeds there. */
  predicate StartsRun(b: seq<Mark>, p: int)
    requires |b| == CELLS && 0 <= p < CELLS
  {
    var row, col := p / SIZE, p % SIZE;
    b[p] != Empty &&
    (RunAt(b, row, col, Horizontal) || RunAt(b, row, col, Vertical) ||
     RunAt(b, row, col, Diagonal) || RunAt(b, row, col, AntiDiagonal))
  }

  /** The mark of the first cell at or after `p`, in raster order, that starts a
      run; `Empty` when there is none. */
  function FirstFrom(b: seq<Mark>, p: int): Mark
    requires |b| == CELLS && 0 <= p <= CELLS
    decreases CELLS - p
  {
    if p == CELLS then Empty
    else if StartsRun(b, p) then b[p]
    else FirstFrom(b, p + 1)
  }

  /** What the scan returns: the winning mark, or `Empty` for "no winner". */
  function Winner(b: seq<Mark>): Mark
    requires |b| == CELLS
  {
    FirstFrom(b, 0)
  }

  /** Looks in direction `d` from (`row`, `col`): is every one of the next four
      cells equal to the cell itself? Stops at the first difference. */
  method CheckRun(squares: seq<Mark>, row: int, col: int, d: Direction) returns (win: bool)
    requires |squares| == CELLS && OnBoard(row, col) && Guard(row, col, d)
    ensures win <==> RunAt(squares, row, col, d)
  {
    win := true;
    for i := 1 to WIN_LENGTH
      invariant forall k :: 1 <= k < i ==> squares[Index(row, col, d, k)] == squares[row * SIZE + col]
    {
      if squares[row * SIZE + col] != squares[Index(row, col, d, i)] {
        win := false;
        break;
      }
    }
  }

  /** The scan of the whole board: raster order, empty cells skipped, then the
      horizontal, vertical, diagonal and anti-diagonal tests, each behind its
      guard. The result is the mark of the first cell that starts a run of five,
      or `Empty`; it is right in both directions: a non-empty result has five in
      a row, and an empty result means neither player has. */
  method CalculateWinner(squares: seq<Mark>) returns (winner: Mark)
    requires |squares| == CELLS
    ensures winner == Winner(squares)
    ensures winner != Empty ==> HasFive(squares, winner)
    ensures winner == Empty <==> !HasFive(squares, Black) && !HasFive(squares, White)
  {
    WinnerSound(squares);
    WinnerComplete(squares, Black);
    WinnerComplete(squares, White);
    for row := 0 to SIZE
      invariant FirstFrom(squares, row * SIZE) == Winner(squares)
    {
      for col := 0 to SIZE
        invariant FirstFrom(squares, row * SIZE + col) == Winner(squares)
      {
        var p := row * SIZE + col;
        Coordinates(row, col);
        if squares[p] == Empty {
          continue;
        }
        if col <= SIZE - WIN_LENGTH {
          var win := CheckRun(squares, row, col, Horizontal);
          if win {
            return squares[p];
          }
        }
        if row <= SIZE - WIN_LENGTH {
          var win := CheckRun(squares, row, col, Vertical);
          if win {
            return squares[p];
          }
        }
        if row <= SIZE - WIN_LENGTH && col <= SIZE - WIN_LENGTH {
          var win := CheckRun(squares, row, col, Diagonal);
          if win {
            return squares[p];
          }
        }
        if row <= SIZE - WIN_LENGTH && col >= WIN_LENGTH - 1 {
          var win := CheckRun(squares, row, col, AntiDiagonal);
          if win {
            return squares[p];
          }
        }
      }
    }
    return Empty;
  }

  // ---------------------------------------------------------------------------
  // Lemmas
  // ---------------------------------------------------------------------------

  /** Index `row * SIZE + col` of an on-board cell decodes back to its row and column. */
  lemma Coordinates(row: int, col: int)
    requires OnBoard(row, col)
    ensures 0 <= row * SIZE + col < CELLS
    ensures (row * SIZE + col) / SIZE == row && (row * SIZE + col) % SIZE == col
  {
  }

  /** `FirstFrom` finds the FIRST cell at or after `p` that starts a run, and it
      finds one whenever there is one. */
  lemma {:induction false} ScanFrom(b: seq<Mark>, p: int)
    requires |b| == CELLS && 0 <= p <= CELLS
    decreases CELLS - p
    ensures FirstFrom(b, p) != Empty ==>
      exists q :: p <= q < CELLS && StartsRun(b, q) && b[q] == FirstFrom(b, p) &&
                  forall r :: p <= r < q ==> !StartsRun(b, r)
    ensures FirstFrom(b, p) == Empty ==> forall q :: p <= q < CELLS ==> !StartsRun(b, q)
  {
    if p < CELLS && !StartsRun(b, p) {
      ScanFrom(b, p + 1);
    }
  }

  /** The scan's test in direction `d` from an occupied cell succeeds exactly
      when the board has five of that cell's mark in a line from it. */
  lemma RunAtIsLine(b: seq<Mark>, row: int, col: int, d: Direction)
    requires |b| == CELLS && OnBoard(row, col) && b[row * SIZE + col] != Empty
    ensures RunAt(b, row, col, d) <==> LineOf(b, b[row * SIZE + col], row, col, d)
  {
    var m := b[row * SIZE + col];
    if RunAt(b, row, col, d) {
      forall k | 0 <= k < WIN_LENGTH
        ensures StoneOnLine(b, row, col, d, k) == m
      {
        var p := Index(row, col, d, k);
      }
    }
    if LineOf(b, m, row, col, d) {
      assert StoneOnLine(b, row, col, d, WIN_LENGTH - 1) == m;
      assert Guard(row, col, d);
      forall i | 1 <= i < WIN_LENGTH
        ensures b[Index(row, col, d, i)] == m
      {
        assert StoneOnLine(b, row, col, d, i) == m;
      }
    }
  }

  /** Soundness: a winner the scan reports really has five in a row. */
  lemma WinnerSound(b: seq<Mark>)
    requires |b| == CELLS
    ensures Winner(b) != Empty ==> HasFive(b, Winner(b))
  {
    ScanFrom(b, 0);
    if Winner(b) != Empty {
      var q :| 0 <= q < CELLS && StartsRun(b, q) && b[q] == Winner(b);
      var row, col := q / SIZE, q % SIZE;
      assert row * SIZE + col == q;
      var d :| RunAt(b, row, col, d);
      RunAtIsLine(b, row, col, d);
      assert LineOf(b, Winner(b), row, col, d);
    }
  }

  /** Completeness: five equal marks in a line anywhere make the scan report a winner. */
  lemma WinnerComplete(b: seq<Mark>, m: Mark)
    requires |b| == CELLS
    ensures HasFive(b, m) ==> Winner(b) != Empty
  {
    if HasFive(b, m) {
      var row, col, d :| 0 <= row < SIZE && 0 <= col < SIZE && LineOf(b, m, row, col, d);
      assert StoneOnLine(b, row, col, d, 0) == m;
      Coordinates(row, col);
      RunAtIsLine(b, row, col, d);
      assert StartsRun(b, row * SIZE + col);
      ScanFrom(b, 0);
    }
  }

  /** The reported winner is the mark of some cell of the board. */
  lemma WinnerIsOnBoard(b: seq<Mark>)
    requires |b| == CELLS
    ensures Winner(b) != Empty ==> exists p :: 0 <= p < CELLS && b[p] == Winner(b)
  {
    ScanFrom(b, 0);
  }

  /** The board a game starts from has no winner. */
  lemma EmptyBoardHasNoWinner()
    ensures Winner(EmptyBoard()) == Empty
  {
    WinnerIsOnBoard(EmptyBoard());
  }
  /** The scan reports a winner exactly when one of the players has five in a row. */
  lemma WinnerExists(b: seq<Mark>)
    requires |b| == CELLS
    ensures Winner(b) != Empty <==> HasFive(b, Black) || HasFive(b, White)
  {
    WinnerSound(b);
    WinnerComplete(b, Black);
    WinnerComplete(b, White);
  }

  /** Each cell of a five lies on the board and holds the five's mark; in
      particular the cell it starts from does. */
  lemma LineCell(b: seq<Mark>, m: Mark, row: int, col: int, d: Direction, k: int)
    requires |b| == CELLS && LineOf(b, m, row, col, d) && 0 <= k < WIN_LENGTH
    ensures OnBoard(LineRow(row, d, k), LineCol(col, d, k))
    ensures b[LineRow(row, d, k) * SIZE + LineCol(col, d, k)] == m
    ensures OnBoard(row, col)
  {
    assert StoneOnLine(b, row, col, d, k) == m;
    assert StoneOnLine(b, row, col, d, 0) == m;
  }

  // ---------------------------------------------------------------------------
  // Stone counts
  // ---------------------------------------------------------------------------

  /** The number of cells of `s` that hold `m`. */
  function Count(s: seq<Mark>, m: Mark): (n: nat)
    ensures n <= |s|
  {
    if s == [] then 0 else (if s[0] == m then 1 else 0) + Count(s[1..], m)
  }

  /** Overwriting one cell changes each count by what left and what arrived. */
  lemma {:induction false} CountAfterPlace(s: seq<Mark>, i: int, x: Mark, m: Mark)
    requires 0 <= i < |s|
    ensures Count(s[i := x], m) ==
      Count(s, m) - (if s[i] == m then 1 else 0) + (if x == m then 1 else 0)
  {
    if i == 0 {
      assert s[i := x][1..] == s[1..];
    } else {
      assert s[i := x][1..] == s[1..][i - 1 := x];
      CountAfterPlace(s[1..], i - 1, x, m);
    }
  }

  /** A sequence in which no cell holds `m` counts no `m`. */
  lemma {:induction false} CountNone(s: seq<Mark>, m: Mark)
    requires forall p :: 0 <= p < |s| ==> s[p] != m
    ensures Count(s, m) == 0
  {
    if s != [] {
      CountNone(s[1..], m);
    }
  }

  lemma {:induction false} CountSplit(s: seq<Mark>, j: int, m: Mark)
    requires 0 <= j <= |s|
    ensures Count(s, m) == Count(s[..j], m) + Count(s[j..], m)
  {
    if j > 0 {
      assert s[..j][1..] == s[1..][..j - 1];
      assert s[j..] == s[1..][j - 1..];
      CountSplit(s[1..], j - 1, m);
    }
  }

  /** Cells at strictly increasing indices that all hold `m` are counted. */
  lemma {:induction false} CountAtLeast(s: seq<Mark>, m: Mark, idx: seq<int>)
    requires forall j :: 0 <= j < |idx| ==> 0 <= idx[j] < |s| && s[idx[j]] == m
    requires forall i, j :: 0 <= i < j < |idx| ==> idx[i] < idx[j]
    ensures Count(s, m) >= |idx|
  {
    if idx != [] {
      var last := idx[|idx| - 1];
      CountSplit(s, last, m);
      assert s[last..][0] == m;
      CountAtLeast(s[..last], m, idx[..|idx| - 1]);
    }
  }

  /** A five in a row is five stones of its mark. */
  lemma FiveNeedsFiveStones(b: seq<Mark>, m: Mark, row: int, col: int, d: Direction)
    requires |b| == CELLS && LineOf(b, m, row, col, d)
    ensures Count(b, m) >= WIN_LENGTH
  {
    var idx := seq(WIN_LENGTH, k => LineRow(row, d, k) * SIZE + LineCol(col, d, k));
    forall j | 0 <= j < |idx|
      ensures 0 <= idx[j] < |b| && b[idx[j]] == m
    {
      LineCell(b, m, row, col, d, j);
    }
    CountAtLeast(b, m, idx);
  }

  /** The reported winner has at least five stones on the board. */
  lemma WinnerNeedsFiveStones(b: seq<Mark>)
    requires |b| == CELLS
    ensures Winner(b) != Empty ==> Count(b, Winner(b)) >= WIN_LENGTH
  {
    WinnerSound(b);
    if Winner(b) != Empty {
      var row, col, d :| 0 <= row < SIZE && 0 <= col < SIZE && LineOf(b, Winner(b), row, col, d);
      FiveNeedsFiveStones(b, Winner(b), row, col, d);
    }
  }

  // ---------------------------------------------------------------------------
  // Example boards
  // ---------------------------------------------------------------------------

  /** Black at row 0, columns 0 to 3. */
  function RowOfFour(): (b: seq<Mark>)
    ensures |b| == CELLS
  {
    EmptyBoard()[0 := Black][1 := Black][2 := Black][3 := Black]
  }

  /** Four in a row are not enough. */
  lemma RowOfFourHasNoWinner()
    ensures Winner(RowOfFour()) == Empty
  {
    var b := RowOfFour();
    WinnerSound(b);
    if Winner(b) != Empty {
      var row, col, d :| 0 <= row < SIZE && 0 <= col < SIZE && LineOf(b, Winner(b), row, col, d);
      LineCell(b, Winner(b), row, col, d, WIN_LENGTH - 1);
      assert false;
    }
  }

  /** The fifth stone at column 4 makes Black the winner. */
  lemma RowOfFiveWins()
    ensures Winner(RowOfFour()[4 := Black]) == Black
  {
    var b := RowOfFour()[4 := Black];
    assert LineOf(b, Black, 0, 0, Horizontal);
    WinnerComplete(b, Black);
    WinnerIsOnBoard(b);
  }

  /** Five stones at (2,2), (3,3), (4,4), (5,5), (6,6) win along the diagonal. */
  lemma DiagonalWins()
    ensures Winner(EmptyBoard()[32 := Black][48 := Black][64 := Black][80 := Black][96 := Black]) == Black
  {
    var b := EmptyBoard()[32 := Black][48 := Black][64 := Black][80 := Black][96 := Black];
    assert LineOf(b, Black, 2, 2, Diagonal);
    WinnerComplete(b, Black);
    WinnerIsOnBoard(b);
  }

  /** Five stones at (2,6), (3,5), (4,4), (5,3), (6,2) win along the anti-diagonal. */
  lemma AntiDiagonalWins()
    ensures Winner(EmptyBoard()[36 := White][50 := White][64 := White][78 := White][92 := White]) == White
  {
    var b := EmptyBoard()[36 := White][50 := White][64 := White][78 := White][92 := White];
    assert LineOf(b, White, 2, 6, AntiDiagonal);
    WinnerComplete(b, White);
    WinnerIsOnBoard(b);
  }

  /** Five consecutive indices that wrap from the end of row 0 into row 1
      (columns 12 to 14, then 0 and 1) are not a win: the guards keep a run
      inside its row. */
  lemma WrappedRunHasNoWinner()
    ensures Winner(EmptyBoard()[12 := Black][13 := Black][14 := Black][15 := Black][16 := Black]) == Empty
  {
    var b := EmptyBoard()[12 := Black][13 := Black][14 := Black][15 := Black][16 := Black];
    WinnerSound(b);
    if Winner(b) != Empty {
      var row, col, d :| 0 <= row < SIZE && 0 <= col < SIZE && LineOf(b, Winner(b), row, col, d);
      LineCell(b, Winner(b), row, col, d, 0);
      LineCell(b, Winner(b), row, col, d, WIN_LENGTH - 1);
      assert false;
    }
  }
}

/** Win detection does not depend on how the board is turned: mirroring it,
    flipping it, transposing it or rotating it by a quarter turn keeps every
    five in a row (at another place, maybe in another direction), so the scan
    reports a winner on the transformed board exactly when it does on the
    original one. */
module WinSymmetry {
  import opened WinDetector

  /** The board seen in a mirror at its right edge: column `c` becomes column `SIZE - 1 - c`. */
  function Mirror(b: seq<Mark>): (m: seq<Mark>)
    requires |b| == CELLS
    ensures |m| == CELLS
  {
    seq(CELLS, p requires 0 <= p < CELLS => b[(p / SIZE) * SIZE + (SIZE - 1 - p % SIZE)])
  }

  /** The board reflected in its main diagonal: rows become columns. */
  function Transpose(b: seq<Mark>): (t: seq<Mark>)
    requires |b| == CELLS
    ensures |t| == CELLS
  {
    seq(CELLS, p requires 0 <= p < CELLS => b[(p % SIZE) * SIZE + p / SIZE])
  }

  /** The board turned by a quarter turn. */
  function Rotate(b: seq<Mark>): (r: seq<Mark>)
    requires |b| == CELLS
    ensures |r| == CELLS
  {
    Mirror(Transpose(b))
  }

  /** The board seen in a mirror at its bottom edge: row `r` becomes row `SIZE - 1 - r`. */
  function Flip(b: seq<Mark>): (f: seq<Mark>)
    requires |b| == CELLS
    ensures |f| == CELLS
  {
    Transpose(Mirror(Transpose(b)))
  }

  // ---------------------------------------------------------------------------
  // What each transformation does to a single cell
  // ---------------------------------------------------------------------------

  lemma MirrorStone(b: seq<Mark>, r: int, c: int)
    requires |b| == CELLS
    ensures StoneAt(Mirror(b), r, c) == StoneAt(b, r, SIZE - 1 - c)
  {
    if OnBoard(r, c) {
      Coordinates(r, c);
    }
  }

  lemma TransposeStone(b: seq<Mark>, r: int, c: int)
    requires |b| == CELLS
    ensures StoneAt(Transpose(b), r, c) == StoneAt(b, c, r)
  {
    if OnBoard(r, c) {
      Coordinates(r, c);
    }
  }

  lemma RotateStone(b: seq<Mark>, r: int, c: int)
    requires |b| == CELLS
    ensures StoneAt(Rotate(b), r, c) == StoneAt(b, SIZE - 1 - c, r)
  {
    MirrorStone(Transpose(b), r, c);
    TransposeStone(b, r, SIZE - 1 - c);
  }

  lemma FlipStone(b: seq<Mark>, r: int, c: int)
    requires |b| == CELLS
    ensures StoneAt(Flip(b), r, c) == StoneAt(b, SIZE - 1 - r, c)
  {
    TransposeStone(Mirror(Transpose(b)), r, c);
    MirrorStone(Transpose(b), c, r);
    TransposeStone(b, c, SIZE - 1 - r);
  }

  /** A board is determined by its stones. */
  lemma SameStones(a: seq<Mark>, b: seq<Mark>)
    requires |a| == CELLS && |b| == CELLS
    requires forall r, c :: OnBoard(r, c) ==> StoneAt(a, r, c) == StoneAt(b, r, c)
    ensures a == b
  {
    forall p | 0 <= p < CELLS
      ensures a[p] == b[p]
    {
      var r, c := p / SIZE, p % SIZE;
      assert r * SIZE + c == p;
      assert StoneAt(a, r, c) == StoneAt(b, r, c);
    }
  }

  lemma MirrorTwice(b: seq<Mark>)
    requires |b| == CELLS
    ensures Mirror(Mirror(b)) == b
  {
    forall r, c | OnBoard(r, c)
      ensures StoneAt(Mirror(Mirror(b)), r, c) == StoneAt(b, r, c)
    {
      MirrorStone(Mirror(b), r, c);
      MirrorStone(b, r, SIZE - 1 - c);
    }
    SameStones(Mirror(Mirror(b)), b);
  }

  lemma TransposeTwice(b: seq<Mark>)
    requires |b| == CELLS
    ensures Transpose(Transpose(b)) == b
  {
    forall r, c | OnBoard(r, c)
      ensures StoneAt(Transpose(Transpose(b)), r, c) == StoneAt(b, r, c)
    {
      TransposeStone(Transpose(b), r, c);
      TransposeStone(b, c, r);
    }
    SameStones(Transpose(Transpose(b)), b);
  }

  // ---------------------------------------------------------------------------
  // What each transformation does to a five in a row
  // ---------------------------------------------------------------------------

  /** In the mirror, a diagonal becomes an anti-diagonal and the other way round. */
  function MirrorDirection(d: Direction): Direction
  {
    match d
    case Horizontal => Horizontal
    case Vertical => Vertical
    case Diagonal => AntiDiagonal
    case AntiDiagonal => Diagonal
  }

  /** A mirrored five: reflected in the vertical axis, a line from (row, col)
      starts at column `SIZE - 1 - col`, except a horizontal one, which now
      runs the other way and so starts at its far end. */
  lemma MirrorLine(b: seq<Mark>, m: Mark, row: int, col: int, d: Direction)
    requires |b| == CELLS && LineOf(b, m, row, col, d)
    ensures var start := if d == Horizontal then SIZE - WIN_LENGTH - col else SIZE - 1 - col;
            OnBoard(row, start) && LineOf(Mirror(b), m, row, start, MirrorDirection(d))
  {
    var start := if d == Horizontal then SIZE - WIN_LENGTH - col else SIZE - 1 - col;
    var md := MirrorDirection(d);
    forall k | 0 <= k < WIN_LENGTH
      ensures StoneOnLine(Mirror(b), row, start, md, k) == m
    {
      var k' := if d == Horizontal then WIN_LENGTH - 1 - k else k;
      MirrorStone(b, LineRow(row, md, k), LineCol(start, md, k));
      assert StoneOnLine(b, row, col, d, k') == m;
    }
    assert StoneOnLine(Mirror(b), row, start, md, 0) == m;
  }

  /** A transposed five: a line from (row, col) starts at (col, row) with
      horizontal and vertical swapped, except an anti-diagonal, which now runs
      the other way and so starts at its far end. */
  lemma TransposeLine(b: seq<Mark>, m: Mark, row: int, col: int, d: Direction)
    requires |b| == CELLS && LineOf(b, m, row, col, d)
    ensures var td := if d == Horizontal then Vertical else if d == Vertical then Horizontal else d;
            var (r0, c0) := if d == AntiDiagonal then (col - (WIN_LENGTH - 1), row + (WIN_LENGTH - 1)) else (col, row);
            OnBoard(r0, c0) && LineOf(Transpose(b), m, r0, c0, td)
  {
    var td := if d == Horizontal then Vertical else if d == Vertical then Horizontal else d;
    var (r0, c0) := if d == AntiDiagonal then (col - (WIN_LENGTH - 1), row + (WIN_LENGTH - 1)) else (col, row);
    forall k | 0 <= k < WIN_LENGTH
      ensures StoneOnLine(Transpose(b), r0, c0, td, k) == m
    {
      var k' := if d == AntiDiagonal then WIN_LENGTH - 1 - k else k;
      TransposeStone(b, LineRow(r0, td, k), LineCol(c0, td, k));
      assert StoneOnLine(b, row, col, d, k') == m;
    }
    assert StoneOnLine(Transpose(b), r0, c0, td, 0) == m;
  }

  lemma MirrorKeepsFive(b: seq<Mark>, m: Mark)
    requires |b| == CELLS
    ensures HasFive(b, m) ==> HasFive(Mirror(b), m)
  {
    if HasFive(b, m) {
      var row, col, d :| 0 <= row < SIZE && 0 <= col < SIZE && LineOf(b, m, row, col, d);
      MirrorLine(b, m, row, col, d);
    }
  }

  lemma TransposeKeepsFive(b: seq<Mark>, m: Mark)
    requires |b| == CELLS
    ensures HasFive(b, m) ==> HasFive(Transpose(b), m)
  {
    if HasFive(b, m) {
      var row, col, d :| 0 <= row < SIZE && 0 <= col < SIZE && LineOf(b, m, row, col, d);
      TransposeLine(b, m, row, col, d);
    }
  }

  // ---------------------------------------------------------------------------
  // Win detection is invariant under the symmetries of the board
  // ---------------------------------------------------------------------------

  lemma MirrorPreservesFive(b: seq<Mark>, m: Mark)
    requires |b| == CELLS
    ensures HasFive(b, m) <==> HasFive(Mirror(b), m)
  {
    MirrorKeepsFive(b, m);
    MirrorKeepsFive(Mirror(b), m);
    MirrorTwice(b);
  }

  lemma TransposePreservesFive(b: seq<Mark>, m: Mark)
    requires |b| == CELLS
    ensures HasFive(b, m) <==> HasFive(Transpose(b), m)
  {
    TransposeKeepsFive(b, m);
    TransposeKeepsFive(Transpose(b), m);
    TransposeTwice(b);
  }

  lemma RotatePreservesFive(b: seq<Mark>, m: Mark)
    requires |b| == CELLS
    ensures HasFive(b, m) <==> HasFive(Rotate(b), m)
  {
    TransposePreservesFive(b, m);
    MirrorPreservesFive(Transpose(b), m);
  }

  lemma FlipPreservesFive(b: seq<Mark>, m: Mark)
    requires |b| == CELLS
    ensures HasFive(b, m) <==> HasFive(Flip(b), m)
  {
    TransposePreservesFive(b, m);
    MirrorPreservesFive(Transpose(b), m);
    TransposePreservesFive(Mirror(Transpose(b)), m);
  }

  /** The scan finds a winner on a board exactly when it finds one on the
      board mirrored, flipped, transposed or turned by a quarter turn. */
  lemma WinnerSymmetric(b: seq<Mark>)
    requires |b| == CELLS
    ensures Winner(b) != Empty <==> Winner(Mirror(b)) != Empty
    ensures Winner(b) != Empty <==> Winner(Flip(b)) != Empty
    ensures Winner(b) != Empty <==> Winner(Transpose(b)) != Empty
    ensures Winner(b) != Empty <==> Winner(Rotate(b)) != Empty
  {
    WinnerExists(b);
    WinnerExists(Mirror(b));
    WinnerExists(Flip(b));
    WinnerExists(Transpose(b));
    WinnerExists(Rotate(b));
    MirrorPreservesFive(b, Black);
    MirrorPreservesFive(b, White);
    FlipPreservesFive(b, Black);
    FlipPreservesFive(b, White);
    TransposePreservesFive(b, Black);
    TransposePreservesFive(b, White);
    RotatePreservesFive(b, Black);
    RotatePreservesFive(b, White);
  }
}

/** The game's state: the history of board snapshots, the cursor into it and
    whose turn it is, with the two transitions the players trigger: a click on
    a cell and a jump to an earlier (or later) step of the history. */
module GameState {
  import opened WinDetector

  datatype Option<T> = None | Some(value: T)

  /** A move's place on the board, row and column counted from 1. */
  datatype Position = Position(row: int, col: int)

  /** A board with the position of the move that produced it (`None` for the
      board a game starts from). */
  datatype Snapshot = Snapshot(squares: seq<Mark>, position: Option<Position>)

  /** What the status line shows: the winner, or who moves next. */
  datatype Status = Won(winner: Mark) | NextPlayer(player: Mark)

  function InitialSnapshot(): Snapshot
  {
    Snapshot(EmptyBoard(), None)
  }

  /** The stone the player to move puts down. */
  function MarkFor(isBlackNext: bool): (m: Mark)
    ensures m != Empty
    ensures m == Black <==> isBlackNext
  {
    if isBlackNext then Black else White
  }

  /** The 1-based position recorded for a move on cell `i`; it names cell `i`
      and no other. */
  function PositionOf(i: int): (p: Position)
    requires 0 <= i < CELLS
    ensures 1 <= p.row <= SIZE && 1 <= p.col <= SIZE
    ensures CellOf(p) == i
  {
    Position(i / SIZE + 1, i % SIZE + 1)
  }

  /** The cell a 1-based position names. */
  function CellOf(p: Position): int
  {
    (p.row - 1) * SIZE + (p.col - 1)
  }

  /** A click on cell `i` of `board` is accepted: nobody has won yet and the cell is free. */
  predicate Playable(board: seq<Mark>, i: int)
    requires |board| == CELLS && 0 <= i < CELLS
  {
    Winner(board) == Empty && board[i] == Empty
  }

  /** `next` is `prev` after one move by the player whose turn it is at step
      `step` (Black at even steps): one free cell, the one the recorded
      position names, now holds that player's stone. */
  predicate FollowsFrom(prev: Snapshot, next: Snapshot, step: int)
  {
    |prev.squares| == CELLS && |next.squares| == CELLS &&
    next.position.Some? &&
    var p := next.position.value;
    1 <= p.row <= SIZE && 1 <= p.col <= SIZE &&
    prev.squares[CellOf(p)] == Empty &&
    next.squares == prev.squares[CellOf(p) := MarkFor(step % 2 == 0)]
  }

  /** A history the game can build: it starts with the empty board, every
      later snapshot follows from the one before it, and no move was made on
      a board that already had a winner. */
  ghost predicate ValidHistory(h: seq<Snapshot>)
  {
    |h| > 0 && h[0] == InitialSnapshot() &&
    (forall k :: 0 <= k < |h| ==> |h[k].squares| == CELLS) &&
    (forall k :: 0 < k < |h| ==> MoveAt(h, k) && UnwonBefore(h, k))
  }

  /** Snapshot `k` of `h` follows from snapshot `k - 1` by the move of step `k - 1`. */
  predicate MoveAt(h: seq<Snapshot>, k: int)
    requires 0 < k < |h|
  {
    FollowsFrom(h[k - 1], h[k], k - 1)
  }

  /** The board before snapshot `k` of `h` had no winner. */
  predicate UnwonBefore(h: seq<Snapshot>, k: int)
    requires 0 < k < |h| && |h[k - 1].squares| == CELLS
  {
    Winner(h[k - 1].squares) == Empty
  }

  class Game {
    var history: seq<Snapshot>
    var stepNumber: nat
    var isBlackNext: bool

    /** The history is one the game can build, the cursor points into it and the
        turn is given by the cursor's parity: Black moves at even steps. */
    ghost predicate Valid()
      reads this
    {
      ValidHistory(history) && stepNumber < |history| &&
      isBlackNext == (stepNumber % 2 == 0)
    }

    /** The snapshot on display. */
    function Current(): (s: Snapshot)
      reads this
      requires Valid()
      ensures |s.squares| == CELLS
    {
      history[stepNumber]
    }

    constructor ()
      ensures Valid()
      ensures history == [InitialSnapshot()] && stepNumber == 0 && isBlackNext
    {
      history := [Snapshot(EmptyBoard(), None)];
      stepNumber := 0;
      isBlackNext := true;
    }

    /** A click on cell `i`. If the board on display already has a winner or
        cell `i` is taken, nothing changes; otherwise the stone is placed as
        `Place` describes. */
    method HandleClick(i: int)
      requires Valid() && 0 <= i < CELLS
      modifies this
      ensures Valid()
      ensures !Playable(old(Current().squares), i) ==> unchanged(this)
      ensures Playable(old(Current().squares), i) ==>
        && history == old(history[..stepNumber + 1]) +
             [Snapshot(old(Current().squares)[i := MarkFor(old(isBlackNext))], Some(PositionOf(i)))]
        && stepNumber == old(stepNumber) + 1
        && isBlackNext == !old(isBlackNext)
        && |history| == old(stepNumber) + 2
        && Current().squares[i] == MarkFor(old(isBlackNext))
        && (forall j :: 0 <= j < CELLS && j != i ==> Current().squares[j] == old(Current().squares[j]))
        && Current().position == Some(Position(i / SIZE + 1, i % SIZE + 1))
    {
      var squares := Current().squares;
      var winner := CalculateWinner(squares);
      if winner != Empty || squares[i] != Empty {
        return;
      }
      Place(i);
    }

    /** The accepted part of a click on cell `i`: the snapshots after the one on
        display are dropped, a copy of its board with the stone of the player
        to move on cell `i` is appended together with the move's 1-based
        position, the cursor moves to it and the turn passes to the other
        player. */
    method Place(i: int)
      requires Valid() && 0 <= i < CELLS && Playable(Current().squares, i)
      modifies this
      ensures Valid()
      ensures history == old(history[..stepNumber + 1]) +
        [Snapshot(old(Current().squares)[i := MarkFor(old(isBlackNext))], Some(PositionOf(i)))]
      ensures stepNumber == old(stepNumber) + 1
      ensures isBlackNext == !old(isBlackNext)
    {
      var currentHistory := history[..stepNumber + 1];
      var squares := currentHistory[|currentHistory| - 1].squares;
      squares := squares[i := if isBlackNext then Black else White];
      var next := Snapshot(squares, Some(Position(i / SIZE + 1, i % SIZE + 1)));
      AcceptedMove(history, stepNumber, i, next);
      ParityFlips(stepNumber);
      history := currentHistory + [next];
      stepNumber := |currentHistory|;
      isBlackNext := !isBlackNext;
    }

    /** A click on step `step` of the history: the cursor moves there and the
        turn is set from its parity; the history itself is kept. */
    method JumpTo(step: nat)
      requires Valid() && step < |history|
      modifies this
      ensures Valid()
      ensures history == old(history) && stepNumber == step
      ensures isBlackNext == (step % 2 == 0)
    {
      stepNumber := step;
      isBlackNext := step % 2 == 0;
    }

    /** The status line: the winner of the board on display if there is one,
        otherwise the player whose turn it is, which is Black exactly at even steps. */
    method GetStatus() returns (s: Status)
      requires Valid()
      ensures Winner(Current().squares) != Empty ==> s == Won(Winner(Current().squares))
      ensures Winner(Current().squares) == Empty ==> s == NextPlayer(MarkFor(stepNumber % 2 == 0))
      ensures s.Won? ==> HasFive(Current().squares, s.winner)
    {
      var winner := CalculateWinner(Current().squares);
      if winner != Empty {
        s := Won(winner);
      } else {
        s := NextPlayer(if isBlackNext then Black else White);
      }
    }
  }

  // ---------------------------------------------------------------------------
  // Lemmas
  // ---------------------------------------------------------------------------

  /** Cutting a history after step `step` and appending a snapshot that follows
      from the one at `step` gives a history the game can build. */
  lemma ExtendHistory(h: seq<Snapshot>, step: nat, next: Snapshot)
    requires ValidHistory(h) && step < |h| && FollowsFrom(h[step], next, step)
    requires Winner(h[step].squares) == Empty
    ensures ValidHistory(h[..step + 1] + [next])
  {
    var h' := h[..step + 1] + [next];
    forall k | 0 < k < |h'|
      ensures MoveAt(h', k) && UnwonBefore(h', k)
    {
      if k <= step {
        assert MoveAt(h, k) && UnwonBefore(h, k);
        assert h'[k - 1] == h[k - 1] && h'[k] == h[k];
      }
    }
  }

  /** An accepted click on cell `i` at step `step` yields a snapshot that
      follows from the one at `step`, so the history stays one the game can build. */
  lemma AcceptedMove(h: seq<Snapshot>, step: nat, i: int, next: Snapshot)
    requires ValidHistory(h) && step < |h| && 0 <= i < CELLS
    requires Playable(h[step].squares, i)
    requires next == Snapshot(h[step].squares[i := MarkFor(step % 2 == 0)], Some(PositionOf(i)))
    ensures FollowsFrom(h[step], next, step)
    ensures ValidHistory(h[..step + 1] + [next])
  {
    ExtendHistory(h, step, next);
  }

  /** The player to move changes from each step to the next. */
  lemma ParityFlips(n: nat)
    ensures ((n + 1) % 2 == 0) == !(n % 2 == 0)
  {
  }

  /** How Black's and White's counts grow from one step to the next. */
  lemma Halves(k: int)
    requires k >= 1
    ensures (k + 1) / 2 == k / 2 + (if (k - 1) % 2 == 0 then 1 else 0)
    ensures k / 2 == (k - 1) / 2 + (if (k - 1) % 2 == 0 then 0 else 1)
  {
  }

  /** One move adds one stone of the player to move and no other. */
  lemma StepCounts(prev: Snapshot, next: Snapshot, step: int)
    requires FollowsFrom(prev, next, step)
    ensures Count(next.squares, Black) == Count(prev.squares, Black) + (if step % 2 == 0 then 1 else 0)
    ensures Count(next.squares, White) == Count(prev.squares, White) + (if step % 2 == 0 then 0 else 1)
  {
    var i := CellOf(next.position.value);
    var x := MarkFor(step % 2 == 0);
    CountAfterPlace(prev.squares, i, x, Black);
    CountAfterPlace(prev.squares, i, x, White);
  }

  /** The snapshot at step `k` of a history the game builds holds exactly `k`
      stones: Black's `(k + 1) / 2` and White's `k / 2`. */
  lemma {:induction false} StonesAtStep(h: seq<Snapshot>, k: nat)
    requires ValidHistory(h) && k < |h|
    ensures Count(h[k].squares, Black) == (k + 1) / 2
    ensures Count(h[k].squares, White) == k / 2
    ensures Count(h[k].squares, Black) + Count(h[k].squares, White) == k
  {
    if k == 0 {
      CountNone(EmptyBoard(), Black);
      CountNone(EmptyBoard(), White);
    } else {
      StonesAtStep(h, k - 1);
      assert MoveAt(h, k);
      StepCounts(h[k - 1], h[k], k - 1);
      Halves(k);
    }
  }

  /** Nobody can win before Black's fifth stone: the boards of a history up to
      step `2 * WIN_LENGTH - 2` (step 8) have no winner. */
  lemma NoEarlyWin(h: seq<Snapshot>, k: nat)
    requires ValidHistory(h) && k < |h| && k < 2 * WIN_LENGTH - 1
    ensures Winner(h[k].squares) == Empty
  {
    StonesAtStep(h, k);
    WinnerNeedsFiveStones(h[k].squares);
  }

  /** Consecutive snapshots differ in exactly one cell: the cell the later one's
      position names, which was free and now holds the stone of the player
      whose turn it was (Black after an even step). */
  lemma StepChangesOneCell(h: seq<Snapshot>, k: nat)
    requires ValidHistory(h) && 0 < k < |h|
    ensures h[k].position.Some?
    ensures var i := CellOf(h[k].position.value);
            && 0 <= i < CELLS
            && h[k - 1].squares[i] == Empty
            && h[k].squares[i] == MarkFor((k - 1) % 2 == 0)
            && forall j :: 0 <= j < CELLS && j != i ==> h[k].squares[j] == h[k - 1].squares[j]
  {
    assert MoveAt(h, k);
  }

  /** No move is ever made on a board that already has a winner, so only the
      last snapshot of a history can show one. */
  lemma OnlyLastSnapshotWon(h: seq<Snapshot>, k: nat)
    requires ValidHistory(h) && k + 1 < |h|
    ensures Winner(h[k].squares) == Empty
  {
    assert UnwonBefore(h, k + 1);
  }
}

/** Short games played against the contracts of `Game`. */
module GameExample {
  import opened WinDetector
  import opened GameState

  /** Black opens at (0,0), White answers at (1,1): each click passes the turn
      and records its 1-based position. */
  method AlternatingTurns()
  {
    var g := new Game();
    NoEarlyWin(g.history, g.stepNumber);
    g.HandleClick(0);
    assert g.stepNumber == 1 && !g.isBlackNext && g.Current().squares[0] == Black;
    NoEarlyWin(g.history, g.stepNumber);
    g.HandleClick(16);
    assert g.stepNumber == 2 && g.isBlackNext && |g.history| == 3;
    assert g.Current().squares[16] == White && g.Current().position == Some(Position(2, 2));
  }

  /** A click on a taken cell changes nothing. */
  method TakenCellIgnored()
  {
    var g := new Game();
    NoEarlyWin(g.history, g.stepNumber);
    g.HandleClick(0);
    var before := g.history;
    g.HandleClick(0);
    assert g.history == before && g.stepNumber == 1 && !g.isBlackNext;
  }

  /** After a jump back to the start, the next move drops the snapshots that
      came after it. */
  method BranchAfterJump()
  {
    var g := new Game();
    NoEarlyWin(g.history, g.stepNumber);
    g.HandleClick(0);
    NoEarlyWin(g.history, g.stepNumber);
    g.HandleClick(16);
    assert |g.history| == 3;
    g.JumpTo(0);
    assert |g.history| == 3 && g.isBlackNext && g.Current() == InitialSnapshot();
    NoEarlyWin(g.history, g.stepNumber);
    g.HandleClick(2);
    assert |g.history| == 2 && g.stepNumber == 1;
    assert g.Current().squares[2] == Black && g.Current().squares[16] == Empty;
  }
}

/** The first generation of the game (001-inicio.py): a fixed 3×3 board,
    a winner check that looks for a complete row, column or diagonal, a
    purely random move written into the board in place, and a loop of
    exactly 100 iterations that writes one frame per iteration and holds a
    restart message for 30 frames whenever the game ends. */
module Inicio {
  import opened Board

  const Size: nat := 3
  /** Iterations of the main loop. */
  const Iterations: nat := 100
  /** Frames the restart message is held after a win or a draw. */
  const RestartHold: nat := 30

  /** What `check_winner` returns: a mark, 'Draw' or None. */
  datatype Verdict = Winner(mark: Cell) | Draw | NoWinner

  /** The eight complete lines of the board. */
  datatype Line = RowLine(i: nat) | ColLine(i: nat) | MainDiag | AntiDiag

  predicate Is3x3(b: Grid) {
    |b| == Size && Square(b)
  }

  predicate ValidLine(l: Line) {
    (l.RowLine? || l.ColLine?) ==> l.i < Size
  }

  /** The order in which lines are examined: row i, then column i, for each
      i in turn, then the main diagonal, then the anti-diagonal. */
  function Rank(l: Line): nat {
    match l
    case RowLine(i) => 2 * i
    case ColLine(i) => 2 * i + 1
    case MainDiag => 2 * Size
    case AntiDiag => 2 * Size + 1
  }

  /** Every cell of line `l` holds `m`. */
  predicate Holds(b: Grid, l: Line, m: Cell)
    requires Is3x3(b) && ValidLine(l)
  {
    match l
    case RowLine(i) => forall j :: 0 <= j < Size ==> b[i][j] == m
    case ColLine(i) => forall j :: 0 <= j < Size ==> b[j][i] == m
    case MainDiag => forall k :: 0 <= k < Size ==> b[k][k] == m
    case AntiDiag => forall k :: 0 <= k < Size ==> b[k][Size - k - 1] == m
  }

  /** Line `l` is complete: all O or all X. */
  predicate Complete(b: Grid, l: Line)
    requires Is3x3(b) && ValidLine(l)
  {
    Holds(b, l, O) || Holds(b, l, X)
  }

  /** The scan of `check_winner` from loop index `i` on. */
  function ScanFrom(b: Grid, i: nat): (v: Verdict)
    requires Is3x3(b) && i <= Size
    ensures v.Winner? ==> v.mark != Empty
    ensures v.Winner? ==>
      exists l :: ValidLine(l) && Rank(l) >= 2 * i && Holds(b, l, v.mark) &&
        forall l' :: ValidLine(l') && 2 * i <= Rank(l') < Rank(l) ==> !Complete(b, l')
    ensures !v.Winner? ==> forall l :: ValidLine(l) && Rank(l) >= 2 * i ==> !Complete(b, l)
    ensures v == Draw <==> !v.Winner? && Full(b)
    decreases Size - i
  {
    if i < Size then
      if Holds(b, RowLine(i), O) || Holds(b, RowLine(i), X) then
        assert Holds(b, RowLine(i), b[i][0]);
        Winner(b[i][0])
      else if Holds(b, ColLine(i), O) || Holds(b, ColLine(i), X) then
        assert Holds(b, ColLine(i), b[0][i]);
        Winner(b[0][i])
      else
        var v := ScanFrom(b, i + 1);
        assert forall l :: ValidLine(l) && 2 * i <= Rank(l) < 2 * i + 2 ==> l == RowLine(i) || l == ColLine(i);
        v
    else if Holds(b, MainDiag, O) || Holds(b, MainDiag, X) then
      assert Holds(b, MainDiag, b[0][0]);
      Winner(b[0][0])
    else if Holds(b, AntiDiag, O) || Holds(b, AntiDiag, X) then
      assert Holds(b, AntiDiag, b[0][Size - 1]);
      assert forall l :: ValidLine(l) && 2 * Size <= Rank(l) < 2 * Size + 1 ==> l == MainDiag;
      Winner(b[0][Size - 1])
    else
      assert forall l :: ValidLine(l) && Rank(l) >= 2 * Size ==> l == MainDiag || l == AntiDiag;
      if Full(b) then Draw else NoWinner
  }

  /** `check_winner`: the mark of the first complete line in scan order,
      else 'Draw' when no cell is empty, else None. */
  function CheckWinner(b: Grid): (v: Verdict)
    requires Is3x3(b)
    ensures v.Winner? ==> v.mark != Empty
    ensures v.Winner? ==>
      exists l :: ValidLine(l) && Holds(b, l, v.mark) &&
        forall l' :: ValidLine(l') && Rank(l') < Rank(l) ==> !Complete(b, l')
    ensures v.Winner? <==> exists l :: ValidLine(l) && Complete(b, l)
    ensures v == Draw <==> (forall l :: ValidLine(l) ==> !Complete(b, l)) && Full(b)
    ensures v == NoWinner <==> (forall l :: ValidLine(l) ==> !Complete(b, l)) && !Full(b)
  {
    var v := ScanFrom(b, 0);
    assert v.Winner? ==> exists l :: ValidLine(l) && Complete(b, l) by {
      if v.Winner? {
        var l :| ValidLine(l) && Holds(b, l, v.mark);
        assert v.mark == O || v.mark == X;
        assert Complete(b, l);
      }
    }
    v
  }

  /** `random_move`: on a board with an empty cell, writes `player` into one
      of the empty cells (any of them) and nothing else; a full board is
      left alone. */
  method RandomMove(board: array2<Cell>, player: Cell)
    requires board.Length0 == Size && board.Length1 == Size
    modifies board
    ensures Full(old(Snapshot(board))) ==> Snapshot(board) == old(Snapshot(board))
    ensures !Full(old(Snapshot(board))) ==>
      exists p :: p in EmptyCells(old(Snapshot(board))) &&
        Snapshot(board) == Place(old(Snapshot(board)), p, player)
  {
    ghost var before := Snapshot(board);
    var empties := EmptyCells(Snapshot(board));
    if empties != [] {
      assert empties[0] in empties;
      var p :| p in empties;
      Mark(board, p, player);
    }
  }

  /** `main`: 100 iterations.  Each writes the board as one frame; a
      decided board (a winner or a draw) then writes the restart message for
      30 more frames and starts again from an empty board with O to move;
      otherwise the current player makes a random move and the turn passes.
      Returned are the frames written and the number of restarts. */
  method Run() returns (frames: nat, restarts: nat)
    ensures frames == Iterations + RestartHold * restarts
    ensures restarts <= Iterations
  {
    var board := NewBoard(Size);
    var current: nat := 0;
    frames, restarts := 0, 0;
    for k := 0 to Iterations
      invariant fresh(board) && board.Length0 == Size && board.Length1 == Size
      invariant current < |Players|
      invariant frames == k + RestartHold * restarts && restarts <= k
      // O moves first and the turn alternates, so O is ahead by exactly the turn index
      invariant Count(Snapshot(board), O) == Count(Snapshot(board), X) + current
    {
      frames := frames + 1;
      var winner := CheckWinner(Snapshot(board));
      if winner != NoWinner {
        for t := 0 to RestartHold
          invariant frames == k + 1 + RestartHold * restarts + t
        {
          frames := frames + 1;
        }
        board := NewBoard(Size);
        current := 0;
        restarts := restarts + 1;
      } else {
        ghost var before := Snapshot(board);
        assert !Full(before);
        var player := Players[current];
        RandomMove(board, player);
        ghost var p :| p in EmptyCells(before) && Snapshot(board) == Place(before, p, player);
        TurnPasses(before, p, current);
        current := Next(current);
      }
    }
  }
}

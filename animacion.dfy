/** The second generation of the game (006-animacion.py): the 3×3 board is
    drawn centred on a 1920×1080 canvas with 150-pixel cells, and every move
    is animated: an O as an arc that sweeps round in `AnimationFrames`
    frames, an X as two diagonals drawn one after the other, each in
    `AnimationFrames` frames.  The winner check is the one of the first
    generation (006-animacion.py:66-84 is the same code as
    001-inicio.py:33-51), so `Inicio.CheckWinner` is used here.

    A frame yielded by an animation is modelled as the list of strokes the
    animation has drawn on the canvas it was given, oldest first; what the
    canvas showed before is not modelled. */
module Animacion {
  import opened Board
  import Inicio
  import Arithmetic

  const Width: int := 1920
  const Height: int := 1080
  const CellSize: int := 150
  /** Frames of one animation pass. */
  const AnimationFrames: nat := 20
  /** Iterations of the main loop. */
  const Iterations: nat := 100
  /** Frames the restart message is held after a win or a draw. */
  const RestartHold: nat := 10

  /** The margins that centre the board on the canvas. */
  const MarginX: int := (Width - CellSize * Inicio.Size) / 2
  const MarginY: int := (Height - CellSize * Inicio.Size) / 2

  datatype Point = Point(x: int, y: int)

  /** A drawing primitive as the animation passes it to the canvas: an arc of
      a circle from angle 0 to `endAngle` degrees, or a line segment. */
  datatype Stroke = Arc(center: Point, radius: int, endAngle: int) | Segment(from: Point, to: Point)

  /** A yielded frame: the strokes drawn so far, oldest first. */
  type Frame = seq<Stroke>

  /** The board, centered, lies wholly inside the canvas. */
  lemma BoardFitsCanvas()
    ensures MarginX == 735 && MarginY == 315
    ensures 0 <= MarginX && MarginX + CellSize * Inicio.Size <= Width
    ensures 0 <= MarginY && MarginY + CellSize * Inicio.Size <= Height
  {
  }

  /** The pixel centre of cell (row, col); it lies inside that cell. */
  function CellCenter(marginX: int, marginY: int, cell: int, row: nat, col: nat): (p: Point)
    ensures cell > 0 ==> marginX + col * cell <= p.x < marginX + col * cell + cell
    ensures cell > 0 ==> marginY + row * cell <= p.y < marginY + row * cell + cell
    ensures p.x - (marginX + col * cell) == p.y - (marginY + row * cell)
    // half a cell (rounded down) from the cell's left and top edges
    ensures cell > 0 ==> cell - 1 <= 2 * (p.x - (marginX + col * cell)) <= cell
    ensures cell > 0 ==> cell - 1 <= 2 * (p.y - (marginY + row * cell)) <= cell
  {
    Point(marginX + col * cell + cell / 2, marginY + row * cell + cell / 2)
  }

  // ---------------------------------------------------------------------
  // animate_O
  // ---------------------------------------------------------------------

  /** The end angle of the arc in frame `i` of `steps`. */
  function ArcAngle(i: nat, steps: nat): (angle: int)
    requires steps > 0
    ensures 0 <= angle
    ensures i < steps ==> angle < 360
  {
    if i < steps then Arithmetic.DivBelow(360 * i, 360, steps); (360 * i) / steps
    else (360 * i) / steps
  }

  /** The sweep starts at 0, grows with every frame and stays below a full
      turn, so the animation never closes the circle itself. */
  lemma ArcAngleRange(i: nat, j: nat, steps: nat)
    requires i <= j < steps
    ensures ArcAngle(0, steps) == 0
    ensures 0 <= ArcAngle(i, steps) <= ArcAngle(j, steps) < 360
  {
    var a, b := 360 * i, 360 * j;
    assert a <= b < 360 * steps;
    Arithmetic.DivMonotone(a, b, steps);
    Arithmetic.DivBelow(b, 360, steps);
    assert ArcAngle(i, steps) == a / steps && ArcAngle(j, steps) == b / steps;
  }

  /** The strokes of the first `n` frames of an O animation. */
  function ArcStrokes(center: Point, cell: int, steps: nat, n: nat): (s: seq<Stroke>)
    requires n <= steps
    ensures |s| == n
  {
    seq(n, i requires 0 <= i < n => Arc(center, cell / 3, ArcAngle(i, steps)))
  }

  /** `animate_O`: `steps` frames; frame k adds to frame k-1 one arc of radius
      cell/3 round `center`, swept to `ArcAngle(k, steps)`. */
  method AnimateO(center: Point, cell: int, steps: nat) returns (frames: seq<Frame>)
    ensures |frames| == steps
    ensures forall k :: 0 <= k < steps ==> frames[k] == ArcStrokes(center, cell, steps, k + 1)
  {
    frames := [];
    var drawn: Frame := [];
    for i := 0 to steps
      invariant |frames| == i
      invariant drawn == ArcStrokes(center, cell, steps, i)
      invariant forall k :: 0 <= k < i ==> frames[k] == ArcStrokes(center, cell, steps, k + 1)
    {
      var angle := (360 * i) / steps;
      drawn := drawn + [Arc(center, cell / 3, angle)];
      frames := frames + [drawn];
    }
  }

  /** Every O frame shows the previous one plus one arc. */
  lemma ArcFramesGrow(center: Point, cell: int, steps: nat, n: nat)
    requires 0 < n <= steps
    ensures ArcStrokes(center, cell, steps, n)
         == ArcStrokes(center, cell, steps, n - 1) + [Arc(center, cell / 3, ArcAngle(n - 1, steps))]
  {
  }

  // ---------------------------------------------------------------------
  // animate_X
  // ---------------------------------------------------------------------

  /** `line_step`: how far each frame extends a stroke along each axis. */
  function LineStep(cell: int, steps: nat): (step: int)
    requires steps > 0
    ensures cell >= 0 ==> 0 <= step && step * (4 * steps) <= cell < (step + 1) * (4 * steps)
  {
    cell / (4 * steps)
  }

  /** Segment `s` lies on the diagonal through `c` that falls to the right. */
  predicate OnFalling(c: Point, s: Stroke) {
    s.Segment? && s.from.x - c.x == s.from.y - c.y && s.to.x - c.x == s.to.y - c.y
  }

  /** Segment `s` lies on the diagonal through `c` that rises to the right. */
  predicate OnRising(c: Point, s: Stroke) {
    s.Segment? && s.from.x - c.x == c.y - s.from.y && s.to.x - c.x == c.y - s.to.y
  }

  /** The two segments added by frame `k` of an X animation: frames 0 to
      steps-1 draw the first diagonal, frames steps to 2·steps-1 the second;
      each segment runs between a corner of the mark (cell/4 off the centre)
      and a point `LineStep·i` off the centre. */
  function XStrokesAt(c: Point, cell: int, steps: nat, k: nat): (s: seq<Stroke>)
    requires 0 < steps && k < 2 * steps
    ensures |s| == 2
  {
    var step, q := LineStep(cell, steps), cell / 4;
    if k < steps then
      var d := step * k;
      [Segment(Point(c.x - d, c.y - d), Point(c.x - q, c.y - q)),
       Segment(Point(c.x + q, c.y + q), Point(c.x + d, c.y + d))]
    else
      var d := step * (k - steps);
      [Segment(Point(c.x + d, c.y - d), Point(c.x + q, c.y - q)),
       Segment(Point(c.x - q, c.y + q), Point(c.x - d, c.y + d))]
  }

  /** Where the two segments of frame k lie: on the diagonal falling to the
      right in the first pass and on the rising one in the second; the upper
      segment ends at the mark's top corner and the lower starts at its
      bottom corner, cell/4 off the centre; their moving ends are
      `line_step·i` off the centre, i the frame's index within its pass. */
  lemma XStrokesAtGeometry(c: Point, cell: int, steps: nat, k: nat)
    requires 0 < steps && k < 2 * steps
    ensures var s := XStrokesAt(c, cell, steps, k);
      s[0].Segment? && s[1].Segment? &&
      (k < steps ==> OnFalling(c, s[0]) && OnFalling(c, s[1])) &&
      (steps <= k ==> OnRising(c, s[0]) && OnRising(c, s[1])) &&
      s[0].to.y == c.y - cell / 4 && s[1].from.y == c.y + cell / 4 &&
      c.y - s[0].from.y == s[1].to.y - c.y == LineStep(cell, steps) * (if k < steps then k else k - steps)
  {
  }

  /** The strokes of the first `n` frames of an X animation. */
  function XStrokes(c: Point, cell: int, steps: nat, n: nat): (s: seq<Stroke>)
    requires 0 < steps && n <= 2 * steps
    ensures |s| == 2 * n
  {
    if n == 0 then [] else XStrokes(c, cell, steps, n - 1) + XStrokesAt(c, cell, steps, n - 1)
  }

  /** The first `n` frames of an X animation, frame k holding the strokes of
      frames 0 to k. */
  function XFrames(c: Point, cell: int, steps: nat, n: nat): (f: seq<Frame>)
    requires 0 < steps && n <= 2 * steps
    ensures |f| == n
  {
    if n == 0 then [] else XFrames(c, cell, steps, n - 1) + [XStrokes(c, cell, steps, n)]
  }

  lemma {:induction false} XFramesAt(c: Point, cell: int, steps: nat, n: nat, k: nat)
    requires 0 < steps && k < n <= 2 * steps
    ensures XFrames(c, cell, steps, n)[k] == XStrokes(c, cell, steps, k + 1)
    decreases n
  {
    if k < n - 1 {
      XFramesAt(c, cell, steps, n - 1, k);
    }
  }

  /** `animate_X`: 2·steps frames, each adding two segments to the previous one. */
  method AnimateX(c: Point, cell: int, steps: nat) returns (frames: seq<Frame>)
    requires steps > 0
    ensures |frames| == 2 * steps
    ensures forall k :: 0 <= k < 2 * steps ==> frames[k] == XStrokes(c, cell, steps, k + 1)
  {
    var lineStep := cell / (4 * steps);
    var q := cell / 4;
    frames := [];
    var drawn: Frame := [];
    // the first diagonal
    for i := 0 to steps
      invariant drawn == XStrokes(c, cell, steps, i)
      invariant frames == XFrames(c, cell, steps, i)
    {
      var d := lineStep * i;
      var upper := Segment(Point(c.x - d, c.y - d), Point(c.x - q, c.y - q));
      var lower := Segment(Point(c.x + q, c.y + q), Point(c.x + d, c.y + d));
      assert [upper, lower] == XStrokesAt(c, cell, steps, i);
      drawn := drawn + [upper, lower];
      frames := frames + [drawn];
    }
    // the second diagonal
    for i := 0 to steps
      invariant drawn == XStrokes(c, cell, steps, steps + i)
      invariant frames == XFrames(c, cell, steps, steps + i)
    {
      var d := lineStep * i;
      var upper := Segment(Point(c.x + d, c.y - d), Point(c.x + q, c.y - q));
      var lower := Segment(Point(c.x - q, c.y + q), Point(c.x - d, c.y + d));
      assert steps + i - steps == i;
      assert [upper, lower] == XStrokesAt(c, cell, steps, steps + i);
      drawn := drawn + [upper, lower];
      frames := frames + [drawn];
    }
    forall k | 0 <= k < 2 * steps
      ensures frames[k] == XStrokes(c, cell, steps, k + 1)
    {
      XFramesAt(c, cell, steps, 2 * steps, k);
    }
  }

  /** Frames only add strokes: each X frame starts with all of an earlier one. */
  lemma {:induction false} XFramesGrow(c: Point, cell: int, steps: nat, m: nat, n: nat)
    requires 0 < steps && m <= n <= 2 * steps
    ensures XStrokes(c, cell, steps, m) <= XStrokes(c, cell, steps, n)
    decreases n
  {
    if m < n {
      XFramesGrow(c, cell, steps, m, n - 1);
    }
  }

  /** A stroke's moving end never passes the mark's corner: the offset
      `line_step·i` of any frame is at most cell/4. */
  lemma XOffsetBound(cell: int, steps: nat, i: nat)
    requires cell >= 0 && i < steps
    ensures 0 <= LineStep(cell, steps) * i <= cell / 4
  {
    var s := LineStep(cell, steps);
    var t := s * steps;
    assert 0 <= s * (4 * steps) <= cell;
    assert s * (4 * steps) == t * 4;
    Arithmetic.MulLe(i, steps, s);
    Arithmetic.DivAtLeast(t, cell, 4);
  }

  /** The moving ends of every X frame lie between the centre and the mark's
      corners, cell/4 off the centre on both axes. */
  lemma XMovingEndsInsideMark(c: Point, cell: int, steps: nat, k: nat)
    requires cell >= 0 && 0 < steps && k < 2 * steps
    ensures var s := XStrokesAt(c, cell, steps, k);
      0 <= c.y - s[0].from.y <= cell / 4 && 0 <= s[1].to.y - c.y <= cell / 4 &&
      (if k < steps then 0 <= c.x - s[0].from.x <= cell / 4 && 0 <= s[1].to.x - c.x <= cell / 4
       else 0 <= s[0].from.x - c.x <= cell / 4 && 0 <= c.x - s[1].to.x <= cell / 4)
  {
    XStrokesAtGeometry(c, cell, steps, k);
    XOffsetBound(cell, steps, if k < steps then k else k - steps);
  }

  // ---------------------------------------------------------------------
  // random_move and main
  // ---------------------------------------------------------------------

  /** `random_move`: on a board with an empty cell, writes `player` into one of
      the empty cells (any of them), changes nothing else and returns that
      cell; on a full board returns None and changes nothing. */
  method RandomMove(board: array2<Cell>, player: Cell) returns (move: Option<Pos>)
    requires board.Length0 == Inicio.Size && board.Length1 == Inicio.Size
    modifies board
    ensures Full(old(Snapshot(board))) ==> move == None && Snapshot(board) == old(Snapshot(board))
    ensures !Full(old(Snapshot(board))) ==>
      move.Some? && move.value in EmptyCells(old(Snapshot(board))) &&
      Snapshot(board) == Place(old(Snapshot(board)), move.value, player)
  {
    ghost var before := Snapshot(board);
    var empties := EmptyCells(Snapshot(board));
    if empties != [] {
      assert empties[0] in empties;
      var p :| p in empties;
      Mark(board, p, player);
      return Some(p);
    }
    return None;
  }

  /** `main`: 100 iterations.  Each writes the board as one frame; a decided
      board (a winner or a draw) then holds the restart message for 10
      frames and play starts again from an empty board with O to move;
      otherwise the current player moves at random, the move's animation is
      written frame by frame (`AnimationFrames` for an O, twice that for an X)
      and the turn passes.  Returned are the frames written and how many
      iterations restarted, moved O and moved X: since an undecided board
      always has an empty cell, every iteration does exactly one of the three. */
  method Run() returns (frames: nat, restarts: nat, oMoves: nat, xMoves: nat)
    ensures frames == Iterations + RestartHold * restarts
                      + AnimationFrames * oMoves + 2 * AnimationFrames * xMoves
    ensures restarts + oMoves + xMoves == Iterations
  {
    var board := NewBoard(Inicio.Size);
    var current: nat := 0;
    frames, restarts, oMoves, xMoves := 0, 0, 0, 0;
    for k := 0 to Iterations
      invariant fresh(board) && board.Length0 == Inicio.Size && board.Length1 == Inicio.Size
      invariant current < |Players|
      invariant frames == k + RestartHold * restarts
                         + AnimationFrames * oMoves + 2 * AnimationFrames * xMoves
      invariant restarts + oMoves + xMoves == k
    {
      frames := frames + 1;
      var winner := Inicio.CheckWinner(Snapshot(board));
      if winner != Inicio.NoWinner {
        for t := 0 to RestartHold
          invariant frames == k + 1 + t + RestartHold * restarts
                             + AnimationFrames * oMoves + 2 * AnimationFrames * xMoves
        {
          frames := frames + 1;
        }
        board := NewBoard(Inicio.Size);
        current := 0;
        restarts := restarts + 1;
      } else {
        var player := Players[current];
        var move := RandomMove(board, player);
        if move.Some? {
          var (row, col) := move.value;
          var center := CellCenter(MarginX, MarginY, CellSize, row, col);
          if player == O {
            var animation := AnimateO(center, CellSize, AnimationFrames);
            for t := 0 to |animation|
              invariant frames == k + 1 + t + RestartHold * restarts
                                 + AnimationFrames * oMoves + 2 * AnimationFrames * xMoves
            {
              frames := frames + 1;
            }
            oMoves := oMoves + 1;
          } else {
            var animation := AnimateX(center, CellSize, AnimationFrames);
            for t := 0 to |animation|
              invariant frames == k + 1 + t + RestartHold * restarts
                                 + AnimationFrames * oMoves + 2 * AnimationFrames * xMoves
            {
              frames := frames + 1;
            }
            xMoves := xMoves + 1;
          }
        }
        current := Next(current);
      }
    }
  }
}

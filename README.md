# Tic-tac-toe video engine, in three generations

The repository draws automated tic-tac-toe matches into a video, frame by
frame. Its game engine exists in three successive scripts, and each is a
module here:

- **`Inicio`** (`001-inicio.py`): a fixed 3×3 board. The winner check looks for a complete row,
  column or diagonal. One random move per turn is written into the board in place. The main loop
  runs for exactly 100 iterations, writes one frame per iteration, and holds a restart message for
  30 frames after a win or a draw.
- **`Animacion`** (`006-animacion.py`): the same game, drawn centred with 150-pixel cells. Every
  move is animated: an O sweeps round as an arc in 20 frames, and an X is drawn as two diagonals of
  20 frames each. The restart message is held for 10 frames. The winner check is textually the same
  as the first script's, so it is modelled once (`Inicio.CheckWinner`).
- **`Continua`** (`015-continua.py`): an N×N board with N drawn from 10 to 15. A win is three equal
  marks in a row anywhere in a row or a column, or on the main diagonal or the main anti-diagonal.
  The result comes with a descriptor of the winning window, through which a strike line is drawn.
  The move policy takes a winning cell if there is one, otherwise blocks the opponent, otherwise
  plays at random; it finds these by trial placements that it reverts. The match runs under a
  budget of 60 s × 60 fps frames. Play goes on after a win until the board is full; then the board
  restarts empty, with the same size and with O to move.
- **`Board`**, shared by all three:
  - cells and the grid;
  - the in-place `array2` board and its snapshot as a value;
  - the row-major list of empty cells;
  - mark counts.

Every place where the source updates something in place is imperative here:
- the board is an `array2<Cell>`, written through `Board.Mark`;
- the winner check of the third script is a method with the source's nested loops;
- the move policy is a method that really places and reverts marks;
- the animations and the main loops are loops.

What each method is proved against:
- `Continua.CheckWinner` equals the declarative outcome `Continua.Evaluate`.
- `Continua.RandomMove` carries out the decision `Continua.Policy`. Its trial loops, `Continua.Trial`
  and `Continua.TryEach`, match `Continua.Completes` and `Continua.FirstCompleting`.
- `Animacion.AnimateO` gives frame k as `Animacion.ArcStrokes`. `Animacion.AnimateX` gives frame k as
  `Animacion.XStrokes(k + 1)`.
- `Board.Mark`, `Inicio.RandomMove`, `Animacion.RandomMove` and `Continua.PlayTurn` give the new board
  as `Board.Place` of the old one. `Board.NewBoard` gives it as `Board.EmptyGrid`.
- The main loops (`Inicio.Run`, `Animacion.Run`, `Continua.Run`) and `Continua.WriteFrames` are proved
  against frame-count formulas. `Continua.ShowOutcome` is stated through `Continua.FirstLine`, and the
  strikes of `Continua.Run` through `Continua.StrikesFor`.

Frames are modelled as follows:
- An animation frame is the list of strokes the animation has drawn so far: an arc, or a segment
  with its integer endpoints.
- In the main loops, frames are counted.
- Random choices (`random.choice`, `random.randint`) are nondeterministic. A chosen cell is
  constrained to be one of the empty cells, and the board size is a parameter constrained to the
  source's range.

## Model

| member | source | states |
|---|---|---|
| Board.Next | 001-inicio.py:85 | the turn passes: the index after `current` is the other of 0 and 1 |
| Board.Place | 015-continua.py:145 | writing one cell of a square board: that cell holds the mark, every other cell is unchanged, and the board stays square |
| Board.EmptyGrid | 015-continua.py:185 | the fresh board is square, of the given size, and every cell is empty |
| Board.NewBoard | 015-continua.py:185 | a new board of the given size is all empty, has no marks of either kind and is not full |
| Board.Mark | 001-inicio.py:57 | `board[r][c] = m` changes exactly that cell of the in-place board |
| Board.PlaceTwice | 015-continua.py:145-148 | a second write to a cell overrides the first, and writing back the old value restores the board, so a reverted trial leaves the board as it was |
| Board.EmptyCells | 015-continua.py:139 | the list holds exactly the empty cells of the board, strictly increasing in row-major order; it is empty exactly when the board is full |
| Board.CountPlace | 001-inicio.py:84 | marking an empty cell adds one mark of that kind and leaves the other kind's count unchanged |
| Board.TurnPasses | 001-inicio.py:84-85 | if O is ahead of X by the turn index, the player to move marks an empty cell, and the turn passes, then O is ahead by the new turn index |
| Inicio.ScanFrom | 001-inicio.py:35-51 | from loop index i on, a returned mark lies on a complete line of that mark that is first from i on in the order row i, column i, …, diagonal, anti-diagonal; no mark means no complete line from i on; 'Draw' exactly when there is no mark and no empty cell |
| Inicio.CheckWinner | 001-inicio.py:33-51 | a mark is returned exactly when some line is complete, and it is on the first complete line in scan order; 'Draw' exactly when no line is complete and no cell is empty; None exactly when no line is complete and some cell is empty |
| Inicio.RandomMove | 001-inicio.py:53-57 | on a board with an empty cell, exactly one previously empty cell is set to the player; a full board is unchanged |
| Inicio.Run | 001-inicio.py:59-85 | exactly 100 iterations: the frames are 100 plus 30 for every restart, and there are at most 100 restarts |
| Animacion.BoardFitsCanvas | 006-animacion.py:17-19 | the margins are 735 and 315, and the 3×150 grid lies inside the 1920×1080 canvas |
| Animacion.CellCenter | 006-animacion.py:121-122 | the centre of a cell lies inside that cell, half a cell (rounded down) from its left edge and half a cell from its top edge |
| Animacion.ArcAngle | 006-animacion.py:44 | the end angle `360·i/steps` is never negative and, for every frame index below `steps`, stays below 360 |
| Animacion.ArcAngleRange | 006-animacion.py:43-44 | the arc's end angle starts at 0, does not decrease from frame to frame, and stays below 360 |
| Animacion.AnimateO | 006-animacion.py:42-47 | exactly `steps` frames are yielded, and frame k holds the arcs with end angles 360·i/steps for i ≤ k, in order |
| Animacion.ArcFramesGrow | 006-animacion.py:43-47 | each O frame is the previous frame plus one arc |
| Animacion.LineStep | 006-animacion.py:50 | `line_step` is the whole number of times 4·steps fits into the cell size: its multiple by 4·steps is at most the cell size, and the next multiple exceeds it |
| Animacion.XStrokesAt | 006-animacion.py:52-63 | frame k of an X adds exactly two segments |
| Animacion.XStrokesAtGeometry | 006-animacion.py:52-63 | the two segments of frame k lie on the diagonal falling to the right for k < steps and on the rising one after that; the upper segment ends at the mark's top corner, cell/4 above the centre, and the lower one starts at its bottom corner; the moving ends are `line_step·i` above and below the centre, i the frame's index within its pass |
| Animacion.XMovingEndsInsideMark | 006-animacion.py:50-63 | the moving ends of every frame's two segments lie within cell/4 of the centre, on the side of the diagonal being drawn, so no stroke passes the mark's corners |
| Animacion.XFramesAt | 006-animacion.py:49-64 | frame k of an X animation holds the strokes of frames 0 to k |
| Animacion.AnimateX | 006-animacion.py:49-64 | exactly 2·steps frames are yielded; frame k holds the segments of frames 0 to k, the first diagonal for k < steps and the second after that |
| Animacion.XFramesGrow | 006-animacion.py:52-64 | every X frame starts with all the strokes of every earlier frame |
| Animacion.XOffsetBound | 006-animacion.py:50-56 | the moving end's offset `line_step·i` of every frame lies between 0 and cell/4, so a stroke never passes the mark's corner |
| Animacion.RandomMove | 006-animacion.py:86-92 | on a board with an empty cell, exactly one previously empty cell is set to the player and its coordinates are returned; on a full board, None is returned and the board is unchanged |
| Animacion.Run | 006-animacion.py:94-130 | exactly 100 iterations, each of which restarts, moves O or moves X; the frames are 100, plus 10 per restart, plus 20 per O move and 40 per X move |
| Continua.MarginsAndCellSize | 015-continua.py:29-33 | the cell size is `min(1920, 1080) // size - 5`: the cell plus the line thickness is the largest length that fits `size` times into the height, the shorter side; the margins are non-negative, and on each axis the two margins plus the board add up to the canvas size or one pixel less |
| Continua.MatchSizesHavePositiveCells | 015-continua.py:183-184 | every board size from 10 to 15 gets cells of at least 67 pixels |
| Continua.CenterRoundTrip | 015-continua.py:233-234 | the cell that owns a cell's centre pixel is that cell again, on both axes |
| Continua.LeastLine | 015-continua.py:88-108 | if the board has a three-in-a-row window, it has a first one in scan order |
| Continua.EvaluateIs | 015-continua.py:88-108 | the first window in scan order is what a win reports |
| Continua.EvaluateFacts | 015-continua.py:85-114 | a win exactly when some window holds three equal marks, reporting the first window in scan order and the non-empty mark on it; 'Draw' exactly when there is no window and no empty cell; (None, None) exactly when there is no window and some empty cell |
| Continua.StrikeableWhenWon | 015-continua.py:200-203 | a reported window lies on the board, and a board with an empty cell is never a draw |
| Continua.CheckWinner | 015-continua.py:85-114 | the nested scans over rows, then columns, then the main diagonal, then the main anti-diagonal return exactly the first window as specified, or 'Draw', or (None, None) |
| Continua.StrikeAsWritten | 015-continua.py:117-133 | the endpoints `draw_strike_line` computes: a row spans 3 cells at the row's mid-height, a column 3 cells at the column's mid-width, the diagonal 3 cells on both axes, and the anti-diagonal as written 1 cell across and 3 down |
| Continua.StrikeLine | 015-continua.py:130-133 | the corrected strike line (see Findings): row, column and diagonal as written; the anti-diagonal spans 3 cells leftwards and 3 down, between the same heights as written |
| Continua.StrikesFor | 015-continua.py:200-203 | the strike lines drawn for the struck windows: one per window, in order, each as `draw_strike_line` computes it |
| Continua.StrikeThroughLine | 015-continua.py:117-135 | every strike line starts in the first cell of its window and ends in the last. A row spans 3 cells at the row's mid-height; a column spans 3 cells at the column's mid-width; the diagonal spans 3 cells on both axes; the anti-diagonal does too, drawn leftwards (corrected, see Findings) |
| Continua.AntiDiagStrikeMirrorsDiag | 015-continua.py:126-133 | the corrected anti-diagonal strike is the diagonal strike reflected about the board's vertical centre line |
| Continua.AntiDiagStrikeAsWritten | 015-continua.py:130-133 | as written, the anti-diagonal strike spans 1 cell horizontally and 3 vertically, and neither endpoint lies in the window's first or last cell |
| Continua.Policy | 015-continua.py:138-159 | the decision of `random_move`: a winning or blocking cell is an empty cell of the board |
| Continua.FirstCompleting | 015-continua.py:144-148 | the index of the first candidate cell whose trial placement wins for the mark; every earlier candidate does not win |
| Continua.PolicyFacts | 015-continua.py:138-159 | no move exactly on a full board. A winning move exactly when some empty cell wins, and then the first such cell in row-major order. A block exactly when no cell wins and some empty cell would win for the opponent, and then the first such cell. A random move exactly when there is an empty cell and neither applies |
| Continua.Trial | 015-continua.py:145-148 | a trial reports whether marking the cell wins for the mark; a winning mark stays on the board, and otherwise the board is restored |
| Continua.TryEach | 015-continua.py:144-148 | a trial loop stops at the first winning candidate, with that mark on the board; with no winner, every trial is reverted and the board is unchanged |
| Continua.ReturnedCellEmptyOnlyOnRoll | 015-continua.py:229-232 | the returned cell is still empty after `random_move` exactly when the move was random: a win or a block is already on the board, so the animation guard skips it |
| Continua.RandomMove | 015-continua.py:138-159 | the board and result are those of the policy decision: None and an unchanged board on a full board; the first winning cell, marked; otherwise the first blocking cell, holding the player's mark with every rejected trial reverted; otherwise some empty cell and an unchanged board |
| Continua.WriteFrames | 015-continua.py:205-209 | a budget-guarded output loop of n frames raises the frame count by n, but never past the budget; the same loop shape writes the win hold, the draw hold, both animations and the full-board hold (015-continua.py lines 215-219, 236-240, 242-246, 260-264) |
| Continua.PlayTurn | 015-continua.py:224-248 | a turn leaves the board as before with one empty cell marked for the player to move, and the frame count stays within the budget; O stays ahead of X by the next turn index; a win or a block writes no frames and marks the cell the move policy names; a random move writes its animation, 5 frames for O and 10 for X, capped at the frame budget of 3600 |
| Continua.ShowOutcome | 015-continua.py:194-209 | on a board with an empty cell, a window is struck exactly when the board has one, and it is the first in scan order; a strike writes one second (60 frames) more, capped at the frame budget of 3600, and no strike writes none |
| Continua.StruckOneMore | 015-continua.py:200-203 | appending a window that fits the board appends its strike line, as the source draws it, to the strike lines drawn |
| Continua.Run | 015-continua.py:180-269 | exactly `TotalFrames` (3600) frames are written, every struck window lies on the board, and the strike lines are those `draw_strike_line` draws for the struck windows, in order (the anti-diagonal as written) |

## Left out

- Pixel drawing is not modelled: `draw_board`, `draw_text_with_capsule`, colours, thicknesses and the `cv2` primitives. An animation frame is the list of strokes it adds, and a main-loop frame is a count.
- Video and file I/O are not modelled: the video writer, `out.write`, `out.release`, the render directory and the epoch-time file name. Each `out.write` is one frame counted.
- Randomness is modelled as nondeterministic choice: `random.choice` yields some element of the empty cells, and `random.randint(10, 15)` becomes the parameter `size` of `Continua.Run`. The distribution is not modelled.
- The float expression `int(360*i/ANIMATION_FRAMES)` in `animate_O` is modelled as integer division. For the non-negative values that occur, the two agree.
- What the canvas showed before an animation is not modelled.
- The rebinding of `frame` by the animation loops in `main` is not modelled.
- The 'Draw' branch of the third script's main loop (015-continua.py:211-223) has no model. The board is never full at the top of that loop, because a full board is reset at the end of each iteration. `Continua.ShowOutcome` proves that the winner check cannot report 'Draw' there.
- The model follows the code: the restart keeps SIZE (015-continua.py:267).

## Findings

| source | as written | input that shows it | evidently intended | confidence | as-written member | corrected member |
|---|---|---|---|---|---|---|
| 015-continua.py:132-133 | the anti-diagonal strike runs from x = mx + (N−s−3)·c + c to x = mx + (N−s−1)·c, downwards over 3 rows | N = 10, window ('anti_diag', 0), cells (0,9), (1,8), (2,7): the line goes from x = mx + 8c to x = mx + 9c, so it spans one cell width and misses both (0,9) and (2,7) | from the top-right corner of cell (s, N−1−s) to the bottom-left corner of cell (s+2, N−3−s), the diagonal strike mirrored | not executed | Continua.AntiDiagStrikeAsWritten | Continua.StrikeLine |

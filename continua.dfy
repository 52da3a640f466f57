/** The third generation of the game (015-continua.py): an N×N board with N
    drawn from 10 to 15, a win as three equal marks in a row anywhere in a
    row or column or on the two main diagonals, a move policy that wins when
    it can and blocks when it must, and a match loop under a budget of
    60 seconds × 60 frames in which play goes on after a win until the board
    is full, after which it restarts on an empty board of the same size.
    The animations are those of the second generation, with other constants. */
module Continua {
  import opened Board
  import Animacion
  import Inicio
  import Arithmetic

  const Width: int := 1920
  const Height: int := 1080
  const LineThickness: int := 5
  /** Frames per second of the video, also the frames a strike line or a
      restart message is held. */
  const DrawFps: nat := 60
  /** Frames of one animation pass. */
  const AnimationFrames: nat := 5
  /** Length of the video in seconds. */
  const VideoDuration: nat := 60
  /** The frame budget of the whole run. */
  const TotalFrames: nat := VideoDuration * DrawFps
  /** The range `random.randint(10, 15)` draws the board size from. */
  const MinSize: nat := 10
  const MaxSize: nat := 15

  // ---------------------------------------------------------------------
  // Geometry
  // ---------------------------------------------------------------------

  datatype Layout = Layout(marginX: int, marginY: int, cell: int)

  /** `calculate_margins_and_cell_size`: the largest cell that fits the
      shorter side, less the line thickness, and margins that centre the
      board: on each axis the two margins and the board add up to the canvas
      size, or to one pixel less when the slack is odd. */
  function MarginsAndCellSize(size: nat): (l: Layout)
    requires size >= 1
    ensures 0 <= l.marginX && 0 <= l.marginY
    ensures Width - 1 <= 2 * l.marginX + l.cell * size <= Width
    ensures Height - 1 <= 2 * l.marginY + l.cell * size <= Height
    // the cell plus the line thickness is the largest length that fits `size`
    // times into the shorter side, the height
    ensures Height <= Width
    ensures (l.cell + LineThickness) * size <= Height < (l.cell + LineThickness + 1) * size
  {
    var side := if Width < Height then Width else Height;
    var cell := side / size - LineThickness;
    assert (side / size) * size <= side;
    assert cell * size == (side / size) * size - LineThickness * size;
    Layout((Width - cell * size) / 2, (Height - cell * size) / 2, cell)
  }

  /** For every board size the match draws, cells have a positive size. */
  lemma MatchSizesHavePositiveCells(size: nat)
    requires MinSize <= size <= MaxSize
    ensures MarginsAndCellSize(size).cell >= 67
  {
    Arithmetic.DivAtLeast(72, Height, size);
  }

  /** The column (or row) whose cells cover pixel coordinate `p`. */
  function CellIndex(p: int, margin: int, cell: int): int
    requires cell > 0
  {
    (p - margin) / cell
  }

  /** The centre of cell (row, col) is owned by that cell again. */
  lemma CenterRoundTrip(l: Layout, row: nat, col: nat)
    requires l.cell > 0
    ensures var p := Animacion.CellCenter(l.marginX, l.marginY, l.cell, row, col);
      CellIndex(p.x, l.marginX, l.cell) == col && CellIndex(p.y, l.marginY, l.cell) == row
  {
    Arithmetic.DivOfMulPlus(col, l.cell / 2, l.cell);
    Arithmetic.DivOfMulPlus(row, l.cell / 2, l.cell);
  }

  // ---------------------------------------------------------------------
  // check_winner
  // ---------------------------------------------------------------------

  /** The source's win descriptors: ('row', i, j) is row i from column j,
      ('col', i, j) column i from row j, ('diag', i) and ('anti_diag', i)
      the main diagonal and the main anti-diagonal from row i. */
  datatype WinInfo = Row(i: nat, j: nat) | Col(i: nat, j: nat) | Diag(i: nat) | AntiDiag(i: nat)

  /** What `check_winner` returns: (mark, descriptor), ('Draw', None) or (None, None). */
  datatype Outcome = Win(mark: Cell, info: WinInfo) | Draw | InProgress

  /** The three cells named by `w` lie on an n×n board. */
  predicate Fits(n: nat, w: WinInfo) {
    match w
    case Row(i, j) => i < n && j + 2 < n
    case Col(i, j) => i < n && j + 2 < n
    case Diag(i) => i + 2 < n
    case AntiDiag(i) => i + 2 < n
  }

  predicate Same3(a: Cell, b: Cell, c: Cell) {
    a != Empty && a == b && b == c
  }

  /** The three cells named by `w` hold one and the same mark. */
  predicate IsLine(b: Grid, w: WinInfo)
    requires Square(b)
  {
    Fits(|b|, w) &&
    match w
    case Row(i, j) => Same3(b[i][j], b[i][j + 1], b[i][j + 2])
    case Col(i, j) => Same3(b[j][i], b[j + 1][i], b[j + 2][i])
    case Diag(i) => Same3(b[i][i], b[i + 1][i + 1], b[i + 2][i + 2])
    case AntiDiag(i) => Same3(b[i][|b| - 1 - i], b[i + 1][|b| - 2 - i], b[i + 2][|b| - 3 - i])
  }

  /** The first cell named by `w`, whose mark `check_winner` reports. */
  function Anchor(b: Grid, w: WinInfo): Cell
    requires Square(b) && Fits(|b|, w)
  {
    match w
    case Row(i, j) => b[i][j]
    case Col(i, j) => b[j][i]
    case Diag(i) => b[i][i]
    case AntiDiag(i) => b[i][|b| - 1 - i]
  }

  function Kind(w: WinInfo): nat {
    match w
    case Row(_, _) => 0
    case Col(_, _) => 1
    case Diag(_) => 2
    case AntiDiag(_) => 3
  }

  function Minor(w: WinInfo): nat {
    match w
    case Row(_, j) => j
    case Col(_, j) => j
    case _ => 0
  }

  /** Scan order: all rows, then all columns, then the diagonal, then the
      anti-diagonal; within a kind by `i`, then by `j`. */
  predicate Before(v: WinInfo, w: WinInfo) {
    Kind(v) < Kind(w) ||
    (Kind(v) == Kind(w) && (v.i < w.i || (v.i == w.i && Minor(v) < Minor(w))))
  }

  /** `w` is a line and no line comes before it in scan order. */
  ghost predicate FirstLine(b: Grid, w: WinInfo)
    requires Square(b)
  {
    IsLine(b, w) && forall v :: IsLine(b, v) ==> !Before(v, w)
  }

  /** What `check_winner` is meant to report. */
  ghost function Evaluate(b: Grid): Outcome
    requires Square(b)
  {
    if exists w :: FirstLine(b, w) then
      var w :| FirstLine(b, w);
      Win(Anchor(b, w), w)
    else if Full(b) then Draw
    else InProgress
  }

  lemma FirstLineUnique(b: Grid, v: WinInfo, w: WinInfo)
    requires Square(b) && FirstLine(b, v) && FirstLine(b, w)
    ensures v == w
  {
  }

  /** A first line is what `Evaluate` reports. */
  lemma EvaluateIs(b: Grid, w: WinInfo)
    requires Square(b) && FirstLine(b, w)
    ensures Evaluate(b) == Win(Anchor(b, w), w)
  {
    forall v | FirstLine(b, v) ensures v == w {
      FirstLineUnique(b, v, w);
    }
  }

  /** Where there is a line there is a first one. */
  lemma {:induction false} LeastLine(b: Grid, w: WinInfo)
    requires Square(b) && IsLine(b, w)
    ensures exists v :: FirstLine(b, v)
    decreases Kind(w), w.i, Minor(w)
  {
    if !FirstLine(b, w) {
      var v :| IsLine(b, v) && Before(v, w);
      LeastLine(b, v);
    }
  }

  /** The outcome, in terms of the lines on the board: a win exactly when
      there is a line, reporting the first line in scan order and the mark
      on it; otherwise a draw exactly when no cell is empty. */
  lemma EvaluateFacts(b: Grid)
    requires Square(b)
    ensures Evaluate(b).Win? <==> exists w :: IsLine(b, w)
    ensures Evaluate(b).Win? ==>
      FirstLine(b, Evaluate(b).info) && Evaluate(b).mark == Anchor(b, Evaluate(b).info) &&
      Evaluate(b).mark != Empty
    ensures Evaluate(b) == Draw <==> (forall w :: !IsLine(b, w)) && Full(b)
    ensures Evaluate(b) == InProgress <==> (forall w :: !IsLine(b, w)) && !Full(b)
  {
    if w :| IsLine(b, w) {
      LeastLine(b, w);
    }
  }

  /** A won board names a window of the board, and a board with an empty
      cell is never a draw. */
  lemma StrikeableWhenWon(b: Grid)
    requires Square(b)
    ensures Evaluate(b).Win? ==> Fits(|b|, Evaluate(b).info)
    ensures !Full(b) ==> Evaluate(b) != Draw
  {
    EvaluateFacts(b);
  }

  /** `check_winner`: rows, then columns, then the main diagonal, then the
      main anti-diagonal are scanned for three equal marks in a row, and the
      first found is returned; with none, 'Draw' if no cell is empty. */
  method CheckWinner(b: Grid) returns (r: Outcome)
    requires Square(b)
    ensures r == Evaluate(b)
  {
    var n := |b|;
    // rows
    for i := 0 to n
      invariant forall v: WinInfo :: v.Row? && v.i < i ==> !IsLine(b, v)
    {
      var j := 0;
      while j + 2 < n
        invariant forall v: WinInfo :: v.Row? && (v.i < i || (v.i == i && v.j < j)) ==> !IsLine(b, v)
      {
        if b[i][j] != Empty && b[i][j] == b[i][j + 1] == b[i][j + 2] {
          EvaluateIs(b, Row(i, j));
          return Win(b[i][j], Row(i, j));
        }
        j := j + 1;
      }
    }
    // columns
    for i := 0 to n
      invariant forall v: WinInfo :: v.Row? ==> !IsLine(b, v)
      invariant forall v: WinInfo :: v.Col? && v.i < i ==> !IsLine(b, v)
    {
      var j := 0;
      while j + 2 < n
        invariant forall v: WinInfo :: v.Col? && (v.i < i || (v.i == i && v.j < j)) ==> !IsLine(b, v)
      {
        if b[j][i] != Empty && b[j][i] == b[j + 1][i] == b[j + 2][i] {
          EvaluateIs(b, Col(i, j));
          return Win(b[j][i], Col(i, j));
        }
        j := j + 1;
      }
    }
    // the main diagonal
    var i := 0;
    while i + 2 < n
      invariant forall v: WinInfo :: (v.Row? || v.Col?) ==> !IsLine(b, v)
      invariant forall v: WinInfo :: v.Diag? && v.i < i ==> !IsLine(b, v)
    {
      if b[i][i] != Empty && b[i][i] == b[i + 1][i + 1] == b[i + 2][i + 2] {
        EvaluateIs(b, Diag(i));
        return Win(b[i][i], Diag(i));
      }
      i := i + 1;
    }
    // the main anti-diagonal
    i := 0;
    while i + 2 < n
      invariant forall v: WinInfo :: (v.Row? || v.Col? || v.Diag?) ==> !IsLine(b, v)
      invariant forall v: WinInfo :: v.AntiDiag? && v.i < i ==> !IsLine(b, v)
    {
      if b[i][n - i - 1] != Empty && b[i][n - i - 1] == b[i + 1][n - i - 2] == b[i + 2][n - i - 3] {
        EvaluateIs(b, AntiDiag(i));
        return Win(b[i][n - i - 1], AntiDiag(i));
      }
      i := i + 1;
    }
    assert forall v: WinInfo :: !FirstLine(b, v);
    if Full(b) {
      return Draw;
    }
    return InProgress;
  }

  // ---------------------------------------------------------------------
  // draw_strike_line
  // ---------------------------------------------------------------------

  /** The segment a strike line is drawn along. */
  datatype Strike = Strike(start: Animacion.Point, end: Animacion.Point)

  /** The cell of `w` that lies on its first row (for a row: its leftmost cell). */
  function FirstCell(n: nat, w: WinInfo): Pos
    requires Fits(n, w)
  {
    match w
    case Row(i, j) => (i, j)
    case Col(i, j) => (j, i)
    case Diag(i) => (i, i)
    case AntiDiag(i) => (i, n - 1 - i)
  }

  /** The cell of `w` that lies on its last row (for a row: its rightmost cell). */
  function LastCell(n: nat, w: WinInfo): Pos
    requires Fits(n, w)
  {
    match w
    case Row(i, j) => (i, j + 2)
    case Col(i, j) => (j + 2, i)
    case Diag(i) => (i + 2, i + 2)
    case AntiDiag(i) => (i + 2, n - 3 - i)
  }

  /** Point `q` lies in cell `p`, edges included. */
  predicate OnCell(l: Layout, p: Pos, q: Animacion.Point) {
    l.marginX + p.1 * l.cell <= q.x <= l.marginX + p.1 * l.cell + l.cell &&
    l.marginY + p.0 * l.cell <= q.y <= l.marginY + p.0 * l.cell + l.cell
  }

  /** The endpoints `draw_strike_line` computes, expression for expression:
      a row from the left edge of its first cell to the right edge of its
      last at mid-height, a column likewise from top to bottom, the diagonal
      from corner to corner; for the anti-diagonal the expressions of lines
      132-133. */
  function StrikeAsWritten(l: Layout, size: nat, w: WinInfo): (k: Strike)
    ensures match w
      case Row(i, _) =>
        k.start.y == k.end.y == l.marginY + i * l.cell + l.cell / 2 && k.end.x - k.start.x == 3 * l.cell
      case Col(i, _) =>
        k.start.x == k.end.x == l.marginX + i * l.cell + l.cell / 2 && k.end.y - k.start.y == 3 * l.cell
      case Diag(_) => k.end.x - k.start.x == 3 * l.cell && k.end.y - k.start.y == 3 * l.cell
      case AntiDiag(_) => k.end.x - k.start.x == l.cell && k.end.y - k.start.y == 3 * l.cell
  {
    var mx, my, c := l.marginX, l.marginY, l.cell;
    match w
    case Row(row, colStart) =>
      assert (colStart + 2) * c + c == colStart * c + 3 * c;
      Strike(Animacion.Point(mx + colStart * c, my + row * c + c / 2),
             Animacion.Point(mx + (colStart + 2) * c + c, my + row * c + c / 2))
    case Col(col, rowStart) =>
      assert (rowStart + 2) * c + c == rowStart * c + 3 * c;
      Strike(Animacion.Point(mx + col * c + c / 2, my + rowStart * c),
             Animacion.Point(mx + col * c + c / 2, my + (rowStart + 2) * c + c))
    case Diag(s) =>
      assert (s + 2) * c + c == s * c + 3 * c;
      Strike(Animacion.Point(mx + s * c, my + s * c),
             Animacion.Point(mx + (s + 2) * c + c, my + (s + 2) * c + c))
    case AntiDiag(s) =>
      assert (size as int - s - 1) * c == (size as int - s - 3) * c + 2 * c;
      assert (s + 2) * c + c == s * c + 3 * c;
      Strike(Animacion.Point(mx + (size as int - s - 3) * c + c, my + s * c),
             Animacion.Point(mx + (size as int - s - 1) * c, my + (s + 2) * c + c))
  }

  /** The strike line as evidently intended: the anti-diagonal runs from the
      top-right corner of its first cell to the bottom-left corner of its
      last; the other kinds are as written. */
  function StrikeLine(l: Layout, size: nat, w: WinInfo): (k: Strike)
    ensures !w.AntiDiag? ==> k == StrikeAsWritten(l, size, w)
    ensures w.AntiDiag? ==>
      k.start.x - k.end.x == 3 * l.cell && k.end.y - k.start.y == 3 * l.cell &&
      k.start.y == StrikeAsWritten(l, size, w).start.y && k.end.y == StrikeAsWritten(l, size, w).end.y
  {
    match w
    case AntiDiag(s) =>
      assert (size as int - s) * l.cell == (size as int - s - 3) * l.cell + 3 * l.cell;
      assert (s + 3) * l.cell == (s + 2) * l.cell + l.cell;
      Strike(Animacion.Point(l.marginX + (size as int - s) * l.cell, l.marginY + s * l.cell),
             Animacion.Point(l.marginX + (size as int - s - 3) * l.cell, l.marginY + (s + 3) * l.cell))
    case _ => StrikeAsWritten(l, size, w)
  }

  /** Every one of `ws` is a window of an n×n board. */
  predicate AllFit(n: nat, ws: seq<WinInfo>) {
    forall k :: 0 <= k < |ws| ==> Fits(n, ws[k])
  }

  /** The strike lines drawn for the windows `ws`, in order. */
  function StrikesFor(l: Layout, size: nat, ws: seq<WinInfo>): (s: seq<Strike>)
    ensures |s| == |ws|
    ensures forall k :: 0 <= k < |ws| ==> s[k] == StrikeAsWritten(l, size, ws[k])
  {
    if ws == [] then [] else StrikesFor(l, size, ws[..|ws| - 1]) + [StrikeAsWritten(l, size, ws[|ws| - 1])]
  }

  lemma StruckOneMore(l: Layout, size: nat, ws: seq<WinInfo>, w: WinInfo)
    requires AllFit(size, ws) && Fits(size, w)
    ensures AllFit(size, ws + [w])
    ensures StrikesFor(l, size, ws + [w]) == StrikesFor(l, size, ws) + [StrikeAsWritten(l, size, w)]
  {
    assert (ws + [w])[..|ws|] == ws;
  }

  /** Every strike line starts in the first cell of its window and ends in
      the last, and spans the window: three cells along a row at the row's
      mid-height, three cells down a column at its mid-width, three cells
      on both axes for the two diagonals (rightwards for the diagonal,
      leftwards for the anti-diagonal). */
  lemma StrikeThroughLine(l: Layout, size: nat, w: WinInfo)
    requires l.cell > 0 && Fits(size, w)
    ensures OnCell(l, FirstCell(size, w), StrikeLine(l, size, w).start)
    ensures OnCell(l, LastCell(size, w), StrikeLine(l, size, w).end)
    ensures var s := StrikeLine(l, size, w);
      match w
      case Row(i, j) =>
        s.start.y == s.end.y == Animacion.CellCenter(l.marginX, l.marginY, l.cell, i, j).y &&
        s.end.x - s.start.x == 3 * l.cell
      case Col(i, j) =>
        s.start.x == s.end.x == Animacion.CellCenter(l.marginX, l.marginY, l.cell, j, i).x &&
        s.end.y - s.start.y == 3 * l.cell
      case Diag(_) =>
        s.end.x - s.start.x == 3 * l.cell && s.end.y - s.start.y == 3 * l.cell
      case AntiDiag(_) =>
        s.start.x - s.end.x == 3 * l.cell && s.end.y - s.start.y == 3 * l.cell
  {
    match w
    case Row(i, j) => RowStrike(l, i, j);
    case Col(i, j) => ColStrike(l, i, j);
    case Diag(i) => DiagStrike(l, i);
    case AntiDiag(i) => AntiDiagStrike(l, size, i);
  }

  lemma RowStrike(l: Layout, i: nat, j: nat)
    requires l.cell > 0
    ensures var s, c := StrikeAsWritten(l, 0, Row(i, j)), l.cell;
      OnCell(l, (i, j), s.start) && OnCell(l, (i, j + 2), s.end) &&
      s.start.y == s.end.y == l.marginY + i * c + c / 2 && s.end.x - s.start.x == 3 * c
  {
    var c := l.cell;
    assert (j + 2) * c + c == j * c + 3 * c;
  }

  lemma ColStrike(l: Layout, i: nat, j: nat)
    requires l.cell > 0
    ensures var s, c := StrikeAsWritten(l, 0, Col(i, j)), l.cell;
      OnCell(l, (j, i), s.start) && OnCell(l, (j + 2, i), s.end) &&
      s.start.x == s.end.x == l.marginX + i * c + c / 2 && s.end.y - s.start.y == 3 * c
  {
    var c := l.cell;
    assert (j + 2) * c + c == j * c + 3 * c;
  }

  lemma DiagStrike(l: Layout, i: nat)
    requires l.cell > 0
    ensures var s, c := StrikeAsWritten(l, 0, Diag(i)), l.cell;
      OnCell(l, (i, i), s.start) && OnCell(l, (i + 2, i + 2), s.end) &&
      s.end.x - s.start.x == 3 * c && s.end.y - s.start.y == 3 * c
  {
    var c := l.cell;
    assert (i + 2) * c + c == i * c + 3 * c;
  }

  lemma AntiDiagStrike(l: Layout, size: nat, i: nat)
    requires l.cell > 0 && i + 2 < size
    ensures var s, c := StrikeLine(l, size, AntiDiag(i)), l.cell;
      OnCell(l, (i, size - 1 - i), s.start) && OnCell(l, (i + 2, size - 3 - i), s.end) &&
      s.start.x - s.end.x == 3 * c && s.end.y - s.start.y == 3 * c
  {
    var c, n := l.cell, size as int;
    assert (n - i) * c == (n - 1 - i) * c + c;
    assert (n - i) * c == (n - i - 3) * c + 3 * c;
    assert (i + 3) * c == (i + 2) * c + c == i * c + 3 * c;
  }

  /** The anti-diagonal strike is the diagonal strike of the same start row
      reflected about the board's vertical centre line. */
  lemma AntiDiagStrikeMirrorsDiag(l: Layout, size: nat, s: nat)
    ensures var a, d := StrikeLine(l, size, AntiDiag(s)), StrikeLine(l, size, Diag(s));
      a.start.x == 2 * l.marginX + size * l.cell - d.start.x && a.start.y == d.start.y &&
      a.end.x == 2 * l.marginX + size * l.cell - d.end.x && a.end.y == d.end.y
  {
  }

  /** As written, the anti-diagonal strike runs down and to the right across
      one cell width only, and neither of its endpoints lies in the
      window's first or last cell. */
  lemma AntiDiagStrikeAsWritten(l: Layout, size: nat, s: nat)
    requires l.cell > 0 && s + 2 < size
    ensures var k := StrikeAsWritten(l, size, AntiDiag(s));
      k.end.x - k.start.x == l.cell && k.end.y - k.start.y == 3 * l.cell &&
      !OnCell(l, FirstCell(size, AntiDiag(s)), k.start) &&
      !OnCell(l, LastCell(size, AntiDiag(s)), k.end)
  {
  }

  // ---------------------------------------------------------------------
  // random_move
  // ---------------------------------------------------------------------

  /** Marking `p` with `m` lets `check_winner` report a win for `m`. */
  ghost predicate Completes(b: Grid, p: Pos, m: Cell)
    requires Square(b) && InRange(|b|, p)
  {
    var r := Evaluate(Place(b, p, m));
    r.Win? && r.mark == m
  }

  /** The index of the first of `cells` that completes a line for `m`, or
      `|cells|` when none does. */
  ghost function FirstCompleting(b: Grid, cells: seq<Pos>, m: Cell): (k: nat)
    requires Square(b) && forall t :: 0 <= t < |cells| ==> InRange(|b|, cells[t])
    ensures k <= |cells|
    ensures k < |cells| ==> Completes(b, cells[k], m)
    ensures forall t :: 0 <= t < k ==> !Completes(b, cells[t], m)
    decreases |cells|
  {
    if cells == [] then 0
    else if Completes(b, cells[0], m) then 0
    else 1 + FirstCompleting(b, cells[1..], m)
  }

  /** What `random_move` decides: no move on a full board, else the first
      empty cell (row-major) that wins, else the first that blocks the
      opponent, else a random empty cell. */
  datatype Decision = NoMove | Take(cell: Pos) | Block(cell: Pos) | Roll

  ghost function Policy(b: Grid, player: Cell, opponent: Cell): (d: Decision)
    requires Square(b)
    ensures (d.Take? || d.Block?) ==> InRange(|b|, d.cell) && b[d.cell.0][d.cell.1] == Empty
  {
    var empties := EmptyCells(b);
    if empties == [] then NoMove
    else
      var w := FirstCompleting(b, empties, player);
      if w < |empties| then Take(empties[w])
      else
        var k := FirstCompleting(b, empties, opponent);
        if k < |empties| then Block(empties[k]) else Roll
  }

  /** An empty cell before `p` in row-major order is one of the empty cells
      listed before it. */
  lemma EarlierEmptyCell(b: Grid, k: nat, q: Pos)
    requires Square(b) && k < |EmptyCells(b)|
    requires InRange(|b|, q) && b[q.0][q.1] == Empty && RowMajorBefore(q, EmptyCells(b)[k])
    ensures exists t :: 0 <= t < k && EmptyCells(b)[t] == q
  {
    var s := EmptyCells(b);
    assert q in s;
    var t :| 0 <= t < |s| && s[t] == q;
    assert k < t ==> RowMajorBefore(s[k], s[t]);
    assert t != k;
  }

  /** The decision in terms of the board: no move exactly on a full board;
      a winning move exactly when some empty cell wins, and then the first
      such cell in row-major order; a block exactly when no cell wins and
      some empty cell would win for the opponent, and then the first such
      cell; a random move exactly when the board has an empty cell and
      neither applies. */
  lemma PolicyFacts(b: Grid, player: Cell, opponent: Cell)
    requires Square(b)
    ensures Policy(b, player, opponent) == NoMove <==> Full(b)
    ensures Policy(b, player, opponent).Take? <==>
      exists p: Pos :: InRange(|b|, p) && b[p.0][p.1] == Empty && Completes(b, p, player)
    ensures Policy(b, player, opponent).Take? ==>
      var p := Policy(b, player, opponent).cell;
      Completes(b, p, player) &&
      forall q: Pos :: InRange(|b|, q) && b[q.0][q.1] == Empty && RowMajorBefore(q, p) ==> !Completes(b, q, player)
    ensures Policy(b, player, opponent).Block? <==>
      (forall p: Pos :: InRange(|b|, p) && b[p.0][p.1] == Empty ==> !Completes(b, p, player)) &&
      exists p: Pos :: InRange(|b|, p) && b[p.0][p.1] == Empty && Completes(b, p, opponent)
    ensures Policy(b, player, opponent).Block? ==>
      var p := Policy(b, player, opponent).cell;
      Completes(b, p, opponent) &&
      forall q: Pos :: InRange(|b|, q) && b[q.0][q.1] == Empty && RowMajorBefore(q, p) ==> !Completes(b, q, opponent)
    ensures Policy(b, player, opponent) == Roll <==>
      !Full(b) &&
      forall p: Pos :: InRange(|b|, p) && b[p.0][p.1] == Empty ==>
        !Completes(b, p, player) && !Completes(b, p, opponent)
  {
    var s := EmptyCells(b);
    if s != [] {
      var w := FirstCompleting(b, s, player);
      var k := FirstCompleting(b, s, opponent);
      forall p: Pos | InRange(|b|, p) && b[p.0][p.1] == Empty
        ensures w == |s| ==> !Completes(b, p, player)
        ensures k == |s| ==> !Completes(b, p, opponent)
      {
        assert p in s;
      }
      if w < |s| {
        forall q: Pos | InRange(|b|, q) && b[q.0][q.1] == Empty && RowMajorBefore(q, s[w])
          ensures !Completes(b, q, player)
        {
          EarlierEmptyCell(b, w, q);
        }
      } else if k < |s| {
        forall q: Pos | InRange(|b|, q) && b[q.0][q.1] == Empty && RowMajorBefore(q, s[k])
          ensures !Completes(b, q, opponent)
        {
          EarlierEmptyCell(b, k, q);
        }
      }
    }
  }

  /** One trial of `random_move`: writes `m` into the empty cell `p` and
      asks `check_winner` whether `m` has won; if so the mark stays, and
      otherwise the cell is reverted to empty. */
  method Trial(board: array2<Cell>, p: Pos, m: Cell) returns (wins: bool)
    requires board.Length0 == board.Length1 && InRange(board.Length0, p)
    requires board[p.0, p.1] == Empty
    modifies board
    ensures wins == Completes(old(Snapshot(board)), p, m)
    ensures wins ==> Snapshot(board) == Place(old(Snapshot(board)), p, m)
    ensures !wins ==> Snapshot(board) == old(Snapshot(board))
  {
    ghost var before := Snapshot(board);
    Mark(board, p, m);
    var outcome := CheckWinner(Snapshot(board));
    wins := outcome.Win? && outcome.mark == m;
    if !wins {
      Mark(board, p, Empty);
      PlaceTwice(before, p, m, Empty);
    }
  }

  /** A trial loop of `random_move`: runs `Trial` on each of `cells` in
      turn and stops at the first win.  Returns the index stopped at, or
      `|cells|`. */
  method TryEach(board: array2<Cell>, cells: seq<Pos>, m: Cell) returns (k: nat)
    requires board.Length0 == board.Length1 && cells == EmptyCells(Snapshot(board))
    modifies board
    ensures k == FirstCompleting(old(Snapshot(board)), cells, m)
    ensures k < |cells| ==> Snapshot(board) == Place(old(Snapshot(board)), cells[k], m)
    ensures k == |cells| ==> Snapshot(board) == old(Snapshot(board))
  {
    ghost var before := Snapshot(board);
    k := 0;
    while k < |cells|
      invariant k <= |cells|
      invariant Snapshot(board) == before
      // no cell before the k-th completes a line
      invariant k <= FirstCompleting(before, cells, m)
    {
      assert board[cells[k].0, cells[k].1] == before[cells[k].0][cells[k].1];
      var wins := Trial(board, cells[k], m);
      if wins {
        return;
      }
      assert !Completes(before, cells[k], m);
      assert FirstCompleting(before, cells, m) != k;
      k := k + 1;
    }
  }

  /** The decision in terms of the two trial loops' results. */
  lemma PolicyByTrials(b: Grid, player: Cell, opponent: Cell, w: nat, k: nat)
    requires Square(b) && EmptyCells(b) != []
    requires w == FirstCompleting(b, EmptyCells(b), player)
    requires w == |EmptyCells(b)| ==> k == FirstCompleting(b, EmptyCells(b), opponent)
    ensures w < |EmptyCells(b)| ==> Policy(b, player, opponent) == Take(EmptyCells(b)[w])
    ensures w == |EmptyCells(b)| && k < w ==> Policy(b, player, opponent) == Block(EmptyCells(b)[k])
    ensures w == |EmptyCells(b)| && k == w ==> Policy(b, player, opponent) == Roll
  {
  }

  /** `after` and `move` are what carrying out decision `d` for `player`
      on `b` leaves: nothing on NoMove; the decided cell, marked, on Take
      and Block; some empty cell, not yet marked, on Roll. */
  predicate Carried(b: Grid, d: Decision, player: Cell, move: Option<Pos>, after: Grid)
    requires Square(b)
  {
    match d
    case NoMove => move == None && after == b
    case Take(p) => move == Some(p) && InRange(|b|, p) && after == Place(b, p, player)
    case Block(p) => move == Some(p) && InRange(|b|, p) && after == Place(b, p, player)
    case Roll => move.Some? && move.value in EmptyCells(b) && after == b
  }

  /** The cell `random_move` returns is still empty afterwards exactly when
      the move was a random one: a winning or blocking move is already on
      the board, so the caller's empty-cell guard skips its animation. */
  lemma ReturnedCellEmptyOnlyOnRoll(b: Grid, d: Decision, player: Cell, p: Pos, after: Grid)
    requires Square(b) && player != Empty
    requires Carried(b, d, player, Some(p), after)
    ensures InRange(|b|, p) && |after| == |b| && Square(after)
    ensures after[p.0][p.1] == Empty <==> d == Roll
  {
    if d == Roll {
      assert p in EmptyCells(b);
    }
  }

  /** `random_move`: with no empty cell, None.  Otherwise the player's trial
      loop runs, and a win found is kept on the board and returned; else the
      opponent's trial loop runs, and at a win found for the opponent the
      player's mark replaces the opponent's there and that cell is returned;
      else a random empty cell is returned with the board as it was.  The
      move is therefore already on the board after a win or a block, and
      only then. */
  method RandomMove(board: array2<Cell>, player: Cell, opponent: Cell) returns (move: Option<Pos>)
    requires board.Length0 == board.Length1
    modifies board
    ensures Carried(old(Snapshot(board)), Policy(old(Snapshot(board)), player, opponent), player,
                    move, Snapshot(board))
  {
    ghost var before := Snapshot(board);
    var empties := EmptyCells(Snapshot(board));
    if empties == [] {
      return None;
    }
    var w := TryEach(board, empties, player);
    if w < |empties| {
      PolicyByTrials(before, player, opponent, w, 0);
      return Some(empties[w]);
    }
    var k := TryEach(board, empties, opponent);
    PolicyByTrials(before, player, opponent, w, k);
    if k < |empties| {
      Mark(board, empties[k], player);
      PlaceTwice(before, empties[k], opponent, player);
      return Some(empties[k]);
    }
    assert empties[0] in empties;
    var p :| p in empties;
    move := Some(p);
  }

  // ---------------------------------------------------------------------
  // main
  // ---------------------------------------------------------------------

  /** The frame count after `n` more frames are offered to a count of
      `frames` under the budget: min(frames + n, TotalFrames). */
  function Capped(frames: nat, n: nat): (r: nat)
    requires frames <= TotalFrames
    ensures frames <= r <= TotalFrames
    ensures r == frames + n || (r == TotalFrames && frames + n > TotalFrames)
  {
    if frames + n <= TotalFrames then frames + n else TotalFrames
  }

  /** The frames of the animation of the mark of player `current`: one
      pass for an O, two for an X. */
  function AnimationLength(current: nat): nat {
    if current == 0 then AnimationFrames else 2 * AnimationFrames
  }

  /** A hold or animation loop of `main`: `n` frames are offered, and each is
      written only while the budget has room, so the count moves up by `n`
      but never past `TotalFrames`. */
  method WriteFrames(frames: nat, n: nat) returns (after: nat)
    requires frames <= TotalFrames
    ensures after == Capped(frames, n)
  {
    after := frames;
    for t := 0 to n
      invariant after == if frames + t <= TotalFrames then frames + t else TotalFrames
    {
      if after >= TotalFrames {
        break;
      }
      after := after + 1;
    }
  }

  /** The move of one turn of `main` (lines 226-248): the player asks
      `random_move` for a cell; if the cell is still empty, the player's
      animation is written frame by frame under the budget and the cell is
      marked.  Either way the board afterwards is the board before with one
      empty cell marked for the player. */
  method PlayTurn(board: array2<Cell>, l: Layout, current: nat, frames: nat)
    returns (after: nat)
    requires board.Length0 == board.Length1 && !Full(Snapshot(board))
    requires current < |Players|
    requires Count(Snapshot(board), O) == Count(Snapshot(board), X) + current
    requires frames <= TotalFrames
    modifies board
    ensures frames <= after <= TotalFrames
    ensures exists p :: p in EmptyCells(old(Snapshot(board))) &&
                        Snapshot(board) == Place(old(Snapshot(board)), p, Players[current])
    ensures Count(Snapshot(board), O) == Count(Snapshot(board), X) + (1 - current)
    // a win or a block is already on the board, so no animation frame is written for it
    ensures var d := Policy(old(Snapshot(board)), Players[current], Players[Next(current)]);
      (d.Take? || d.Block?) ==>
        after == frames && Snapshot(board) == Place(old(Snapshot(board)), d.cell, Players[current])
    // a random move is animated, frame by frame under the budget
    ensures Policy(old(Snapshot(board)), Players[current], Players[Next(current)]) == Roll ==>
      after == Capped(frames, AnimationLength(current))
  {
    ghost var before := Snapshot(board);
    var player, opponent := Players[current], Players[Next(current)];
    var move := RandomMove(board, player, opponent);
    ghost var decision := Policy(before, player, opponent);
    PolicyFacts(before, player, opponent);
    assert move.Some?;
    var (row, col) := move.value;
    ReturnedCellEmptyOnlyOnRoll(before, decision, player, (row, col), Snapshot(board));
    after := frames;
    if board[row, col] == Empty {
      var center := Animacion.CellCenter(l.marginX, l.marginY, l.cell, row, col);
      var animation: seq<Animacion.Frame>;
      if player == O {
        animation := Animacion.AnimateO(center, l.cell, AnimationFrames);
      } else {
        animation := Animacion.AnimateX(center, l.cell, AnimationFrames);
      }
      assert |animation| == AnimationLength(current);
      after := WriteFrames(frames, |animation|);
      Mark(board, (row, col), player);
    }
    assert (row, col) in EmptyCells(before);
    TurnPasses(before, (row, col), current);
  }

  /** The first half of an iteration of `main` (lines 200-209): after the
      board has been written as a frame, `check_winner` runs; on a win the
      strike line is drawn and the frame held for `DrawFps` more frames under
      the budget.  Returned is the window struck through, if any: exactly
      the first line on the board.  A board with an empty cell is never a
      draw, so the 'Draw' branch (lines 211-223) has nothing to do here. */
  method ShowOutcome(board: array2<Cell>, frames: nat) returns (after: nat, struck: Option<WinInfo>)
    requires board.Length0 == board.Length1 && !Full(Snapshot(board))
    requires frames <= TotalFrames
    ensures after == if struck.Some? then Capped(frames, DrawFps) else frames
    ensures struck.Some? <==> exists w :: IsLine(Snapshot(board), w)
    ensures struck.Some? ==> FirstLine(Snapshot(board), struck.value) && Fits(board.Length0, struck.value)
  {
    ghost var b := Snapshot(board);
    var outcome := CheckWinner(Snapshot(board));
    EvaluateFacts(b);
    after, struck := frames, None;
    if outcome.Win? {
      after := WriteFrames(frames, DrawFps);
      struck := Some(outcome.info);
    }
    assert outcome != Draw;
    assert struck.Some? <==> outcome.Win?;
    assert outcome.Win? <==> exists w :: IsLine(b, w);
    assert b == Snapshot(board);
  }

  /** `main`, for the board size `size` drawn at the start.  While the
      budget of `TotalFrames` has room: the board is written as a frame; on
      a win the strike line is drawn and held; the player to move plays a
      turn, keeping O ahead of X by the turn index; the turn passes; a full
      board holds its message for `DrawFps` frames and is replaced by an
      empty one of the same size with O to move.  Because a full board is
      replaced at the end of the iteration that fills it, the board is never
      full at the top of the loop, so there is always an empty cell to play.
      Every write is guarded by the budget, so exactly `TotalFrames` frames
      are written.  Returned with the frame count are the windows struck
      through, in order, and the strike lines drawn for them as the source
      draws them. */
  method Run(size: nat) returns (frames: nat, wins: seq<WinInfo>, strikes: seq<Strike>)
    requires MinSize <= size <= MaxSize
    ensures frames == TotalFrames
    ensures AllFit(size, wins)
    ensures strikes == StrikesFor(MarginsAndCellSize(size), size, wins)
  {
    var layout := MarginsAndCellSize(size);
    MatchSizesHavePositiveCells(size);
    var board := NewBoard(size);
    var current: nat := 0;
    frames, wins, strikes := 0, [], [];
    while frames < TotalFrames
      invariant frames <= TotalFrames
      invariant fresh(board) && board.Length0 == size && board.Length1 == size
      invariant current < |Players|
      invariant !Full(Snapshot(board))
      // O moves first and the turn alternates, so O is ahead by exactly the turn index
      invariant Count(Snapshot(board), O) == Count(Snapshot(board), X) + current
      invariant AllFit(size, wins)
      invariant strikes == StrikesFor(layout, size, wins)
      decreases TotalFrames - frames
    {
      frames := frames + 1;
      var struck;
      frames, struck := ShowOutcome(board, frames);
      if struck.Some? {
        StruckOneMore(layout, size, wins, struck.value);
        wins := wins + [struck.value];
        strikes := strikes + [StrikeAsWritten(layout, size, struck.value)];
      }
      frames := PlayTurn(board, layout, current, frames);
      if frames >= TotalFrames {
        break;
      }
      current := Next(current);
      if Full(Snapshot(board)) {
        frames := WriteFrames(frames, DrawFps);
        board := NewBoard(size);
        current := 0;
      }
    }
  }
}

/** The board shared by every generation of the game: cell marks, the N×N
    grid as a value, the view of an in-place `array2` board as such a value,
    the row-major list of empty cells, and mark counts. */
module Board {

  /** A cell holds nothing (the source's '') or one of the two marks. */
  datatype Cell = Empty | O | X

  /** The two players in turn order: index 0 plays O, index 1 plays X. */
  const Players: seq<Cell> := [O, X]

  /** The turn index after `current`'s move, `(current + 1) % 2`: the other player. */
  function Next(current: nat): (next: nat)
    requires current < |Players|
    ensures next < |Players| && next == 1 - current
  {
    (current + 1) % 2
  }

  /** A board as a value: a list of rows. */
  type Grid = seq<seq<Cell>>

  /** A (row, column) coordinate. */
  type Pos = (nat, nat)

  datatype Option<T> = None | Some(value: T)

  /** Every row is as long as the board has rows. */
  predicate Square(b: Grid) {
    forall i :: 0 <= i < |b| ==> |b[i]| == |b|
  }

  predicate InRange(n: nat, p: Pos) {
    p.0 < n && p.1 < n
  }

  /** No cell is empty (the source's `all(cell != '' for row in board for cell in row)`). */
  predicate Full(b: Grid) {
    forall i, j :: 0 <= i < |b| && 0 <= j < |b[i]| ==> b[i][j] != Empty
  }

  /** The board with one cell overwritten. */
  function Place(b: Grid, p: Pos, m: Cell): (r: Grid)
    requires Square(b) && InRange(|b|, p)
    ensures Square(r) && |r| == |b|
    ensures r[p.0][p.1] == m
    ensures forall i, j :: 0 <= i < |b| && 0 <= j < |b| && (i, j) != p ==> r[i][j] == b[i][j]
  {
    b[p.0 := b[p.0][p.1 := m]]
  }

  /** The all-empty n×n board. */
  function EmptyGrid(n: nat): (r: Grid)
    ensures Square(r) && |r| == n
    ensures forall i, j :: 0 <= i < n && 0 <= j < n ==> r[i][j] == Empty
  {
    seq(n, _ => seq(n, _ => Empty))
  }

  /** The contents of an in-place board, row by row. */
  function Snapshot(a: array2<Cell>): (g: Grid)
    reads a
    ensures |g| == a.Length0
    ensures forall i :: 0 <= i < |g| ==> |g[i]| == a.Length1
    ensures forall i, j :: 0 <= i < a.Length0 && 0 <= j < a.Length1 ==> g[i][j] == a[i, j]
    ensures a.Length0 == a.Length1 ==> Square(g)
  {
    seq(a.Length0, i requires 0 <= i < a.Length0 reads a =>
      seq(a.Length1, j requires 0 <= j < a.Length1 reads a => a[i, j]))
  }

  /** A new in-place size×size board: every cell empty, so not full, and no marks. */
  method NewBoard(size: nat) returns (board: array2<Cell>)
    requires size > 0
    ensures fresh(board) && board.Length0 == size && board.Length1 == size
    ensures Snapshot(board) == EmptyGrid(size) && !Full(Snapshot(board))
    ensures Count(Snapshot(board), O) == 0 && Count(Snapshot(board), X) == 0
  {
    board := new Cell[size, size]((_, _) => Empty);
    SnapshotIs(board, EmptyGrid(size));
    assert Snapshot(board)[0][0] == Empty;
    CountNone(Snapshot(board), O);
    CountNone(Snapshot(board), X);
  }

  /** `board[r][c] = m` on an in-place board: the one cell changes. */
  method Mark(board: array2<Cell>, p: Pos, m: Cell)
    requires board.Length0 == board.Length1 && InRange(board.Length0, p)
    modifies board
    ensures Snapshot(board) == Place(old(Snapshot(board)), p, m)
  {
    ghost var before := Snapshot(board);
    board[p.0, p.1] := m;
    SnapshotIs(board, Place(before, p, m));
  }

  /** Overwriting a cell twice leaves the second mark; writing back what a
      cell held restores the board. */
  lemma PlaceTwice(b: Grid, p: Pos, m1: Cell, m2: Cell)
    requires Square(b) && InRange(|b|, p)
    ensures Place(Place(b, p, m1), p, m2) == Place(b, p, m2)
    ensures Place(b, p, b[p.0][p.1]) == b
  {
    assert b[p.0][p.1 := m1][p.1 := m2] == b[p.0][p.1 := m2];
    assert b[p.0][p.1 := b[p.0][p.1]] == b[p.0];
  }

  /** A board that agrees with `g` cell by cell has `g` as its snapshot. */
  lemma SnapshotIs(a: array2<Cell>, g: Grid)
    requires |g| == a.Length0
    requires forall i :: 0 <= i < |g| ==> |g[i]| == a.Length1
    requires forall i, j :: 0 <= i < a.Length0 && 0 <= j < a.Length1 ==> a[i, j] == g[i][j]
    ensures Snapshot(a) == g
  {
    var s := Snapshot(a);
    forall i | 0 <= i < |g| ensures s[i] == g[i] {
      assert |s[i]| == |g[i]|;
      forall j | 0 <= j < |g[i]| ensures s[i][j] == g[i][j] {
        assert s[i][j] == a[i, j];
      }
    }
  }

  // ---------------------------------------------------------------------
  // Empty cells, in row-major order
  // ---------------------------------------------------------------------

  /** Strict row-major order on coordinates. */
  predicate RowMajorBefore(p: Pos, q: Pos) {
    p.0 < q.0 || (p.0 == q.0 && p.1 < q.1)
  }

  predicate Increasing(s: seq<Pos>) {
    forall k1, k2 :: 0 <= k1 < k2 < |s| ==> RowMajorBefore(s[k1], s[k2])
  }

  /** Empty cells of row `r` from column `c` on, left to right. */
  function EmptyInRow(b: Grid, r: nat, c: nat): (s: seq<Pos>)
    requires Square(b) && r < |b|
    ensures forall p: Pos :: p in s <==> p.0 == r && c <= p.1 < |b| && b[r][p.1] == Empty
    ensures Increasing(s)
    decreases |b| - c
  {
    if c >= |b| then []
    else
      var rest := EmptyInRow(b, r, c + 1);
      if b[r][c] == Empty then [(r, c)] + rest else rest
  }

  /** Empty cells of rows `r` and below, in row-major order. */
  function EmptyFrom(b: Grid, r: nat): (s: seq<Pos>)
    requires Square(b)
    ensures forall p: Pos :: p in s <==> r <= p.0 < |b| && p.1 < |b| && b[p.0][p.1] == Empty
    ensures Increasing(s)
    decreases |b| - r
  {
    if r >= |b| then []
    else
      var here, rest := EmptyInRow(b, r, 0), EmptyFrom(b, r + 1);
      assert forall k1, k2 :: 0 <= k1 < |here| <= k2 < |here| + |rest| ==>
        (here + rest)[k1] in here && (here + rest)[k2] in rest;
      here + rest
  }

  /** The source's `empty_cells`: every empty cell, row by row, left to right. */
  function EmptyCells(b: Grid): (s: seq<Pos>)
    requires Square(b)
    ensures forall p: Pos :: p in s <==> InRange(|b|, p) && b[p.0][p.1] == Empty
    ensures forall t :: 0 <= t < |s| ==> InRange(|b|, s[t]) && b[s[t].0][s[t].1] == Empty
    ensures Increasing(s)
    ensures s == [] <==> Full(b)
  {
    var s := EmptyFrom(b, 0);
    assert forall t :: 0 <= t < |s| ==> s[t] in s;
    assert s == [] <==> Full(b) by {
      if s != [] {
        assert s[0] in s;
      }
      if !Full(b) {
        var i, j :| 0 <= i < |b| && 0 <= j < |b[i]| && b[i][j] == Empty;
        assert (i, j) in s;
      }
    }
    s
  }

  // ---------------------------------------------------------------------
  // Mark counts
  // ---------------------------------------------------------------------

  function CountRow(row: seq<Cell>, m: Cell): nat {
    if row == [] then 0 else (if row[0] == m then 1 else 0) + CountRow(row[1..], m)
  }

  /** How many cells of the board hold `m`. */
  function Count(b: Grid, m: Cell): nat {
    if b == [] then 0 else CountRow(b[0], m) + Count(b[1..], m)
  }

  lemma {:induction false} CountRowUpdate(row: seq<Cell>, c: nat, v: Cell, m: Cell)
    requires c < |row|
    ensures CountRow(row[c := v], m) + (if row[c] == m then 1 else 0)
         == CountRow(row, m) + (if v == m then 1 else 0)
  {
    if c > 0 {
      assert row[c := v][1..] == row[1..][c - 1 := v];
      CountRowUpdate(row[1..], c - 1, v, m);
    } else {
      assert row[c := v][1..] == row[1..];
    }
  }

  lemma {:induction false} CountUpdate(b: Grid, r: nat, row: seq<Cell>, m: Cell)
    requires r < |b|
    ensures Count(b[r := row], m) + CountRow(b[r], m) == Count(b, m) + CountRow(row, m)
  {
    if r > 0 {
      assert b[r := row][1..] == b[1..][r - 1 := row];
      CountUpdate(b[1..], r - 1, row, m);
    } else {
      assert b[r := row][1..] == b[1..];
    }
  }

  /** Marking an empty cell adds one mark of that kind and changes no other count. */
  lemma CountPlace(b: Grid, p: Pos, m: Cell, other: Cell)
    requires Square(b) && InRange(|b|, p) && b[p.0][p.1] == Empty
    requires m != Empty
    ensures Count(Place(b, p, m), m) == Count(b, m) + 1
    ensures other != m && other != Empty ==> Count(Place(b, p, m), other) == Count(b, other)
  {
    var row := b[p.0][p.1 := m];
    CountRowUpdate(b[p.0], p.1, m, m);
    CountRowUpdate(b[p.0], p.1, m, other);
    CountUpdate(b, p.0, row, m);
    CountUpdate(b, p.0, row, other);
  }

  lemma {:induction false} CountRowNone(row: seq<Cell>, m: Cell)
    requires forall j :: 0 <= j < |row| ==> row[j] != m
    ensures CountRow(row, m) == 0
  {
    if row != [] { CountRowNone(row[1..], m); }
  }

  /** A board on which no cell holds `m` counts no `m`. */
  lemma {:induction false} CountNone(b: Grid, m: Cell)
    requires forall i, j :: 0 <= i < |b| && 0 <= j < |b[i]| ==> b[i][j] != m
    ensures Count(b, m) == 0
  {
    if b != [] {
      CountRowNone(b[0], m);
      assert forall i, j :: 0 <= i < |b[1..]| && 0 <= j < |b[1..][i]| ==> b[1..][i][j] == b[i + 1][j];
      CountNone(b[1..], m);
    }
  }

  /** A move by the player whose turn it is keeps O ahead of X by the turn
      index of the player who moves next. */
  lemma TurnPasses(b: Grid, p: Pos, current: nat)
    requires Square(b) && InRange(|b|, p) && b[p.0][p.1] == Empty
    requires current < |Players|
    requires Count(b, O) == Count(b, X) + current
    ensures Count(Place(b, p, Players[current]), O) == Count(Place(b, p, Players[current]), X) + (1 - current)
  {
    if current == 0 {
      assert Players[current] == O;
      CountPlace(b, p, O, X);
    } else {
      assert Players[current] == X;
      CountPlace(b, p, X, O);
    }
  }
}

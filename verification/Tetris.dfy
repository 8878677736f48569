/** Tetris: the falling piece, locking, clearing, and the level. */
module Tetris {
  import opened TetrisBoard

  datatype Point = Point(x: int, y: int)
  datatype Tetromino = Tetromino(x: int, y: int, blocks: seq<Point>, color: int)

  const SHAPE_COUNT: nat := 7

  function Shape(k: nat): seq<Point>
    requires k < SHAPE_COUNT
  {
    match k
    case 0 => [Point(0, 0), Point(1, 0), Point(2, 0), Point(3, 0)]
    case 1 => [Point(0, 0), Point(1, 0), Point(0, 1), Point(1, 1)]
    case 2 => [Point(1, 0), Point(0, 1), Point(1, 1), Point(2, 1)]
    case 3 => [Point(0, 1), Point(1, 1), Point(1, 0), Point(2, 0)]
    case 4 => [Point(0, 0), Point(1, 0), Point(1, 1), Point(2, 1)]
    case 5 => [Point(0, 1), Point(1, 1), Point(2, 1), Point(2, 0)]
    case _ => [Point(0, 0), Point(0, 1), Point(1, 1), Point(2, 1)]
  }

  function CreateTetromino(k: nat): Tetromino
    requires k < SHAPE_COUNT
  {
    Tetromino(0, 0, Shape(k), k % 7 + 1)
  }

  /** Four different blocks and a visible colour. */
  predicate WellFormed(p: Tetromino) {
    |p.blocks| == 4 && p.color != 0 && forall i, j :: 0 <= i < j < 4 ==> p.blocks[i] != p.blocks[j]
  }

  /** A piece as created: its blocks lie in a box of 4 by 2. */
  predicate Fresh(p: Tetromino) {
    WellFormed(p) && forall i :: 0 <= i < 4 ==> 0 <= p.blocks[i].x < 4 && 0 <= p.blocks[i].y < 2
  }

  lemma CreatedFresh(k: nat)
    requires k < SHAPE_COUNT
    ensures Fresh(CreateTetromino(k))
  {
    var s := Shape(k);
    assert |s| == 4 && s[0] != s[1] && s[0] != s[2] && s[0] != s[3] && s[1] != s[2] && s[1] != s[3] && s[2] != s[3];
  }

  /** The two rows in which shape k is drawn. */
  function Picture(k: nat): seq<string>
    requires k < SHAPE_COUNT
  {
    match k
    case 0 => ["####", "...."]
    case 1 => ["##..", "##.."]
    case 2 => [".#..", "###."]
    case 3 => [".##.", "##.."]
    case 4 => ["##..", ".##."]
    case 5 => ["..#.", "###."]
    case _ => ["#...", "###."]
  }

  /** The blocks of a new piece are those of its picture, and colour 2 is that of the square. */
  lemma ShapesDrawn(k: nat, x: int, y: int)
    requires k < SHAPE_COUNT && 0 <= x < 4 && 0 <= y < 2
    ensures |Picture(k)| == 2 && |Picture(k)[y]| == 4
    ensures Point(x, y) in CreateTetromino(k).blocks <==> Picture(k)[y][x] == '#'
    ensures 1 <= CreateTetromino(k).color == k + 1 <= 7
    ensures CreateTetromino(k).color == 2 <==> Picture(k) == ["##..", "##.."]
  {
    assert ["##..", "##.."][0][2] == '.' && ["##..", "##.."][1][0] == '#';
  }

  ghost predicate Created(p: Tetromino) { exists k: nat :: k < SHAPE_COUNT && p == CreateTetromino(k) }

  /** Where block i of the piece is on the board. */
  function BlockX(p: Tetromino, i: nat): int
    requires i < |p.blocks|
  {
    p.x + p.blocks[i].x
  }

  function BlockY(p: Tetromino, i: nat): int
    requires i < |p.blocks|
  {
    p.y + p.blocks[i].y
  }

  /** Between the walls and above the floor; it may stick out at the top. */
  predicate InRange(p: Tetromino) {
    WellFormed(p) && forall i :: 0 <= i < 4 ==> 0 <= BlockX(p, i) < BOARD_WIDTH && BlockY(p, i) < BOARD_HEIGHT
  }

  /** Block i covers no filled cell. */
  predicate FreeBlock(b: Board, p: Tetromino, i: nat)
    requires i < |p.blocks|
  {
    var x, y := BlockX(p, i), BlockY(p, i);
    0 <= x < BOARD_WIDTH && 0 <= y < BOARD_HEIGHT ==> b[BOARD_WIDTH * y + x] == 0
  }

  predicate FreeUpTo(b: Board, p: Tetromino, n: nat)
    requires n <= |p.blocks|
  {
    forall k :: 0 <= k < n ==> FreeBlock(b, p, k)
  }

  predicate Fits(b: Board, p: Tetromino) {
    InRange(p) && FreeUpTo(b, p, 4)
  }

  /** A piece where pieces appear: in the middle of the top. */
  function Spawned(p: Tetromino): Tetromino { p.(x := BOARD_WIDTH / 2 - 1, y := 0) }

  function Moved(p: Tetromino, dx: int, dy: int): Tetromino { p.(x := p.x + dx, y := p.y + dy) }

  /** A quarter turn about the block (1, 1). */
  function TurnedBlock(q: Point): Point { Point(q.y, 2 - q.x) }

  function Turned(p: Tetromino): Tetromino
    requires |p.blocks| == 4
  {
    p.(blocks := seq(4, i requires 0 <= i < 4 => TurnedBlock(p.blocks[i])))
  }

  lemma TurnedWellFormed(p: Tetromino)
    requires WellFormed(p)
    ensures WellFormed(Turned(p))
  {}

  /** Four quarter turns bring every piece back. */
  lemma FourTurns(p: Tetromino)
    requires WellFormed(p)
    ensures Turned(Turned(Turned(Turned(p)))) == p
  {
    assert Turned(Turned(Turned(Turned(p)))).blocks == p.blocks;
  }

  // ---------- locking ----------

  /** The board after the first i blocks of the piece have been written; blocks above the board are
      dropped. */
  function Locked(b: Board, p: Tetromino, i: nat): Board
    requires InRange(p) && i <= 4
  {
    if i == 0 then b
    else
      var c := Locked(b, p, i - 1);
      var x, y := BlockX(p, i - 1), BlockY(p, i - 1);
      if y >= 0 then c[BOARD_WIDTH * y + x := p.color] else c
  }

  /** How many of the first i blocks are on the board. */
  function Visible(p: Tetromino, i: nat): nat
    requires InRange(p) && i <= 4
  {
    if i == 0 then 0 else Visible(p, i - 1) + if BlockY(p, i - 1) >= 0 then 1 else 0
  }

  lemma {:induction false} LockedCell(b: Board, p: Tetromino, i: nat, j: nat)
    requires Fits(b, p) && i <= j < 4
    ensures FreeBlock(Locked(b, p, i), p, j)
  {
    if i > 0 {
      LockedCell(b, p, i - 1, j);
      assert p.blocks[i - 1] != p.blocks[j];
      assert p.blocks[j] == Point(p.blocks[j].x, p.blocks[j].y);
      assert p.blocks[i - 1] == Point(p.blocks[i - 1].x, p.blocks[i - 1].y);
    }
  }

  /** Exactly the cells under the first n blocks take the piece's colour. */
  lemma {:induction false} LockedAt(b: Board, p: Tetromino, n: nat, x: int, y: int)
    requires InRange(p) && n <= 4 && 0 <= x < BOARD_WIDTH && 0 <= y < BOARD_HEIGHT
    ensures Locked(b, p, n)[BOARD_WIDTH * y + x] ==
            if exists i :: 0 <= i < n && BlockX(p, i) == x && BlockY(p, i) == y then p.color else b[BOARD_WIDTH * y + x]
  {
    if n > 0 { LockedAt(b, p, n - 1, x, y); }
  }

  /** Locking completes at most one row per block; and where the piece fits it fills one cell per
      visible block. */
  lemma {:induction false} LockedCounts(b: Board, p: Tetromino, i: nat)
    requires InRange(p) && i <= 4
    ensures FullCount(Rows(Locked(b, p, i))) <= FullCount(Rows(b)) + i
    ensures Fits(b, p) ==> Filled(Rows(Locked(b, p, i))) == Filled(Rows(b)) + Visible(p, i)
  {
    if i > 0 {
      LockedCounts(b, p, i - 1);
      if BlockY(p, i - 1) >= 0 {
        StoreCounts(Locked(b, p, i - 1), BlockY(p, i - 1), BlockX(p, i - 1), p.color);
        if Fits(b, p) { LockedCell(b, p, i - 1, i - 1); }
      }
    }
  }

  // ---------- level ----------

  function LevelOf(lines: nat): nat { if 1 + lines / 10 < 15 then 1 + lines / 10 else 15 }

  /** The level rises by one for every ten lines, from 1 up to 15. */
  lemma LevelSteps(lines: nat)
    ensures lines < 10 ==> LevelOf(lines) == 1
    ensures LevelOf(lines + 10) == if LevelOf(lines) < 15 then LevelOf(lines) + 1 else 15
  {
    assert (lines + 10) / 10 == lines / 10 + 1;
  }

  function Points(cleared: nat): nat
    requires cleared <= 4
  {
    [0, 100, 300, 500, 800][cleared]
  }

  // ---------- clearing, while it goes on ----------

  /** The first n rows are still to be examined, `cleared` full rows have been removed. */
  ghost predicate Clearing(rows0: seq<Row>, rows: seq<Row>, n: nat, cleared: nat) {
    n <= |rows0| && rows == EmptyRows(cleared) + rows0[..n] + Keep(rows0[n..])
    && |rows| == |rows0| && cleared == FullCount(rows0[n..])
  }

  lemma ClearingRow(rows0: seq<Row>, rows: seq<Row>, n: nat, cleared: nat, y: nat)
    requires Clearing(rows0, rows, n, cleared) && y < |rows|
    requires if n > 0 then y + 1 == cleared + n else y + 1 <= cleared
    ensures rows[y] == if n > 0 then rows0[n - 1] else EmptyRow()
    ensures n > 0 && !Full(rows[y]) ==> Clearing(rows0, rows, n - 1, cleared)
    ensures n > 0 && Full(rows[y]) ==> Clearing(rows0, [EmptyRow()] + rows[..y] + rows[y + 1..], n - 1, cleared + 1)
    ensures n == 0 ==> !Full(rows[y])
  {
    hide Keep, Full, FullCount;
    if n > 0 {
      var r, e := rows0[n - 1], EmptyRows(cleared);
      assert rows0[..n] == rows0[..n - 1] + [r];
      Parts(e, rows0[..n - 1], r, Keep(rows0[n..]), rows, y);
      LastRow(rows0, n);
      if Full(r) {
        assert EmptyRows(cleared + 1) == [EmptyRow()] + e;
      }
    } else {
      EmptyNotFull();
    }
  }

  lemma EmptyNotFull()
    ensures !Full(EmptyRow())
  {
    assert EmptyRow()[0] == 0;
  }

  /** Keeping and counting, one row further up. */
  lemma LastRow(rows0: seq<Row>, n: nat)
    requires 0 < n <= |rows0|
    ensures var r := rows0[n - 1];
            && FullCount(rows0[n - 1..]) == FullCount(rows0[n..]) + (if Full(r) then 1 else 0)
            && Keep(rows0[n - 1..]) == (if Full(r) then [] else [r]) + Keep(rows0[n..])
  {
    assert rows0[n - 1..][1..] == rows0[n..];
  }

  /** A board in four parts, cut around its third part r. */
  lemma Parts(e: seq<Row>, top: seq<Row>, r: Row, kept: seq<Row>, rows: seq<Row>, y: nat)
    requires rows == e + (top + [r]) + kept && y == |e| + |top|
    ensures rows[y] == r && rows == e + top + ([r] + kept)
    ensures rows[..y] == e + top && rows[y + 1..] == kept
  {}

  lemma ClearingDone(rows0: seq<Row>, rows: seq<Row>, cleared: nat)
    requires Clearing(rows0, rows, 0, cleared)
    ensures rows == Cleared(rows0) && cleared == FullCount(rows0)
  {
    assert rows0[0..] == rows0;
    KeepCounts(rows0);
  }

  /** Cell i after the cells above row y have been shifted down by one row. */
  function ShiftedCell(b: Board, y: nat, i: nat): int
    requires y < BOARD_HEIGHT && i < CELLS
  {
    if i < BOARD_WIDTH then 0 else if i < BOARD_WIDTH * (y + 1) then b[i - BOARD_WIDTH] else b[i]
  }

  /** Row k after the shift: row k - 1 above the removed row, itself below. */
  lemma ShiftedRow(b: Board, c: Board, y: nat, k: nat)
    requires y < BOARD_HEIGHT && k < BOARD_HEIGHT
    requires forall i: nat :: i < CELLS ==> c[i] == ShiftedCell(b, y, i)
    ensures RowAt(c, k) == if k == 0 then EmptyRow() else if k <= y then RowAt(b, k - 1) else RowAt(b, k)
  {
    var row := if k == 0 then EmptyRow() else if k <= y then RowAt(b, k - 1) else RowAt(b, k);
    forall x | 0 <= x < BOARD_WIDTH ensures RowAt(c, k)[x] == row[x] {
      var i := BOARD_WIDTH * k + x;
      assert RowAt(c, k)[x] == c[i] == ShiftedCell(b, y, i);
      if 0 < k <= y {
        assert i < BOARD_WIDTH * (y + 1) && i - BOARD_WIDTH == BOARD_WIDTH * (k - 1) + x;
        assert RowAt(b, k - 1)[x] == b[i - BOARD_WIDTH];
      }
    }
  }

  lemma RowsOfShift(b: Board, c: Board, y: nat)
    requires y < BOARD_HEIGHT
    requires forall i: nat :: i < CELLS ==> c[i] == ShiftedCell(b, y, i)
    ensures Rows(c) == [EmptyRow()] + Rows(b)[..y] + Rows(b)[y + 1..]
  {
    var rows := [EmptyRow()] + Rows(b)[..y] + Rows(b)[y + 1..];
    forall k: nat | k < BOARD_HEIGHT ensures Rows(c)[k] == rows[k] {
      ShiftedRow(b, c, y, k);
      assert Rows(c)[k] == RowAt(c, k);
      assert rows[k] == if k == 0 then EmptyRow() else if k <= y then Rows(b)[k - 1] else Rows(b)[k];
    }
  }

  class Game {
    const board: array<int>
    var currentPiece: Tetromino
    var nextPiece: Tetromino
    var score: nat
    var level: nat
    var linesCleared: nat
    var gameOver: bool
    var dropInterval: int

    /** No row is full, the level follows from the lines, and, until the game is over, the piece fits. */
    ghost predicate Valid()
      reads this, board
    {
      && board.Length == CELLS && NoneFull(Rows(board[..]))
      && Created(nextPiece) && InRange(currentPiece)
      && level == LevelOf(linesCleared) && dropInterval == 500 - 30 * (level - 1)
      && (!gameOver ==> Fits(board[..], currentPiece))
    }

    /** `tetris_init`, the first piece and the first spawn. */
    constructor (firstShape: nat, draw: nat)
      requires firstShape < SHAPE_COUNT
      ensures Valid() && fresh(board) && !gameOver && Filled(Rows(board[..])) == 0
      ensures score == 0 && linesCleared == 0 && currentPiece == Spawned(CreateTetromino(firstShape))
      ensures level == 1 && dropInterval == 500 && nextPiece == CreateTetromino(draw % 7)
    {
      board := new int[CELLS](i => 0);
      score, level, linesCleared, gameOver, dropInterval := 0, 1, 0, false, 500;
      nextPiece, currentPiece := CreateTetromino(firstShape), CreateTetromino(firstShape);
      new;
      EmptyBoard(board[..]);
      CreatedFresh(firstShape);
      SpawnPiece(draw);
      assert forall i :: 0 <= i < 4 ==> FreeBlock(board[..], currentPiece, i);
    }

    /** `spawn_piece`: the game is over when the new piece does not fit. The shape after it is drawn. */
    method SpawnPiece(draw: nat)
      requires board.Length == CELLS && Created(nextPiece)
      modifies `currentPiece, `nextPiece, `gameOver
      ensures currentPiece == Spawned(old(nextPiece)) && currentPiece.x == 4 && currentPiece.y == 0
      ensures InRange(currentPiece) && Created(nextPiece) && nextPiece == CreateTetromino(draw % 7)
      ensures gameOver <==> old(gameOver) || !Fits(board[..], currentPiece)
    {
      ghost var k: nat :| k < SHAPE_COUNT && nextPiece == CreateTetromino(k);
      CreatedFresh(k);
      currentPiece := nextPiece.(x := BOARD_WIDTH / 2 - 1, y := 0);
      nextPiece := CreateTetromino(draw % SHAPE_COUNT);
      ghost var piece := currentPiece;
      assert InRange(piece);
      var i := 0;
      while i < 4
        modifies `gameOver
        invariant 0 <= i <= 4
        invariant gameOver <==> old(gameOver) || !FreeUpTo(board[..], piece, i)
      {
        var cellX, cellY := BlockX(currentPiece, i), BlockY(currentPiece, i);
        if cellY >= 0 && board[BOARD_WIDTH * cellY + cellX] != 0 {
          gameOver := true;
        }
        assert FreeUpTo(board[..], piece, i + 1) <==> FreeUpTo(board[..], piece, i) && FreeBlock(board[..], piece, i);
        i := i + 1;
      }
    }

    /** `is_valid_position`. */
    method IsValidPosition(piece: Tetromino, offsetX: int, offsetY: int) returns (valid: bool)
      requires board.Length == CELLS && WellFormed(piece)
      ensures valid <==> Fits(board[..], Moved(piece, offsetX, offsetY))
    {
      ghost var p := Moved(piece, offsetX, offsetY);
      var i := 0;
      while i < 4
        invariant 0 <= i <= 4
        invariant forall k :: 0 <= k < i ==> 0 <= BlockX(p, k) < BOARD_WIDTH && BlockY(p, k) < BOARD_HEIGHT
                                             && FreeBlock(board[..], p, k)
      {
        var newX := piece.x + piece.blocks[i].x + offsetX;
        var newY := piece.y + piece.blocks[i].y + offsetY;
        assert newX == BlockX(p, i) && newY == BlockY(p, i);
        if newX < 0 || newX >= BOARD_WIDTH || newY >= BOARD_HEIGHT {
          return false;
        }
        if newY >= 0 && board[BOARD_WIDTH * newY + newX] != 0 {
          assert !FreeBlock(board[..], p, i);
          return false;
        }
        i := i + 1;
      }
      valid := true;
    }

    /** `rotate_piece`: the piece turns if it fits as it is or moved sideways by 1 or 2, in the order
        0, -1, 1, -2, 2; the square never turns. */
    method RotatePiece()
      requires Valid()
      modifies `currentPiece
      ensures Valid()
      ensures currentPiece == Kicked(board[..], old(currentPiece))
    {
      if currentPiece.color == 2 { return; }
      var temp := currentPiece;
      var i := 0;
      while i < 4
        invariant 0 <= i <= 4 && temp == currentPiece.(blocks := temp.blocks) && |temp.blocks| == 4
        invariant forall k :: 0 <= k < 4 ==>
                    temp.blocks[k] == if k < i then TurnedBlock(currentPiece.blocks[k]) else currentPiece.blocks[k]
      {
        var oldX, oldY := temp.blocks[i].x - 1, temp.blocks[i].y - 1;
        temp := temp.(blocks := temp.blocks[i := Point(oldY + 1, -oldX + 1)]);
        i := i + 1;
      }
      assert temp.blocks == Turned(currentPiece).blocks;
      TurnedWellFormed(currentPiece);
      var fits := IsValidPosition(temp, 0, 0);
      if fits { currentPiece := temp; return; }
      fits := IsValidPosition(temp, -1, 0);
      if fits { currentPiece := temp.(x := temp.x - 1); return; }
      fits := IsValidPosition(temp, 1, 0);
      if fits { currentPiece := temp.(x := temp.x + 1); return; }
      fits := IsValidPosition(temp, -2, 0);
      if fits { currentPiece := temp.(x := temp.x - 2); return; }
      fits := IsValidPosition(temp, 2, 0);
      if fits { currentPiece := temp.(x := temp.x + 2); }
    }

    /** `lock_piece`. */
    method LockPiece()
      requires board.Length == CELLS && InRange(currentPiece)
      modifies board
      ensures board[..] == Locked(old(board[..]), currentPiece, 4)
    {
      var i := 0;
      while i < 4
        invariant 0 <= i <= 4 && board[..] == Locked(old(board[..]), currentPiece, i)
      {
        var cellY, cellX := BlockY(currentPiece, i), BlockX(currentPiece, i);
        if cellY >= 0 {
          board[BOARD_WIDTH * cellY + cellX] := currentPiece.color;
        }
        i := i + 1;
      }
    }

    method RowFull(y: nat) returns (full: bool)
      requires board.Length == CELLS && y < BOARD_HEIGHT
      ensures full <==> Full(Rows(board[..])[y])
    {
      var x := 0;
      while x < BOARD_WIDTH
        invariant 0 <= x <= BOARD_WIDTH
        invariant forall k :: 0 <= k < x ==> RowAt(board[..], y)[k] != 0
      {
        assert RowAt(board[..], y)[x] == board[BOARD_WIDTH * y + x];
        if board[BOARD_WIDTH * y + x] == 0 { return false; }
        x := x + 1;
      }
      full := true;
    }

    /** Copies a row to the row below. */
    method CopyRowDown(ny: nat)
      requires board.Length == CELLS && 0 < ny < BOARD_HEIGHT
      modifies board
      ensures forall i :: 0 <= i < CELLS ==>
                board[i] ==
                old(board[..])[if BOARD_WIDTH * ny <= i < BOARD_WIDTH * ny + BOARD_WIDTH then i - BOARD_WIDTH else i]
    {
      var start := BOARD_WIDTH * ny;
      var nx := 0;
      while nx < BOARD_WIDTH
        invariant 0 <= nx <= BOARD_WIDTH
        invariant forall i :: 0 <= i < CELLS ==>
                    board[i] == old(board[..])[if start <= i < start + nx then i - BOARD_WIDTH else i]
      {
        board[start + nx] := board[BOARD_WIDTH * (ny - 1) + nx];
        nx := nx + 1;
      }
    }

    /** The two shifting loops of `clear_lines`. */
    method ShiftDown(y: nat)
      requires board.Length == CELLS && y < BOARD_HEIGHT
      modifies board
      ensures Rows(board[..]) == [EmptyRow()] + Rows(old(board[..]))[..y] + Rows(old(board[..]))[y + 1..]
    {
      ghost var b: Board := board[..];
      ghost var end := BOARD_WIDTH * (y + 1);
      var ny := y;
      while ny > 0
        invariant 0 <= ny <= y
        invariant forall i :: 0 <= i < CELLS ==>
                    board[i] == b[if BOARD_WIDTH * ny + BOARD_WIDTH <= i < end then i - BOARD_WIDTH else i]
      {
        CopyRowDown(ny);
        ny := ny - 1;
      }
      var nx := 0;
      while nx < BOARD_WIDTH
        invariant 0 <= nx <= BOARD_WIDTH
        invariant forall i :: 0 <= i < CELLS ==>
                    board[i] == if i < nx then 0 else b[if BOARD_WIDTH <= i < end then i - BOARD_WIDTH else i]
      {
        board[nx] := 0;
        nx := nx + 1;
      }
      RowsOfShift(b, board[..], y);
    }

    /** The loop of `clear_lines`, which looks at the same row again after removing one. */
    method RemoveFullRows() returns (cleared: nat)
      requires board.Length == CELLS
      modifies board
      ensures Rows(board[..]) == Cleared(Rows(old(board[..])))
      ensures cleared == FullCount(Rows(old(board[..])))
    {
      ghost var rows0 := Rows(board[..]);
      ghost var n: nat := BOARD_HEIGHT;
      cleared := 0;
      var y: int := BOARD_HEIGHT - 1;
      assert EmptyRows(0) + rows0[..n] + Keep(rows0[n..]) == rows0;
      while y >= 0
        invariant -1 <= y < BOARD_HEIGHT && Clearing(rows0, Rows(board[..]), n, cleared)
        invariant if n > 0 then y + 1 == cleared + n else y + 1 <= cleared
        decreases y + n
      {
        ClearingRow(rows0, Rows(board[..]), n, cleared, y);
        var full := RowFull(y);
        if full {
          cleared := cleared + 1;
          ShiftDown(y);
          y := y + 1;
        }
        n := if n > 0 then n - 1 else 0;
        y := y - 1;
      }
      ClearingDone(rows0, Rows(board[..]), cleared);
    }

    /** `clear_lines`. */
    method ClearLines() returns (ghost cleared: nat)
      requires board.Length == CELLS && FullCount(Rows(board[..])) <= 4
      requires level == LevelOf(linesCleared) && dropInterval == 500 - 30 * (level - 1)
      modifies board, `score, `level, `linesCleared, `dropInterval
      ensures Rows(board[..]) == Cleared(Rows(old(board[..])))
      ensures cleared == FullCount(Rows(old(board[..]))) && linesCleared == old(linesCleared) + cleared
      ensures score == old(score) + Points(cleared) * old(level)
      ensures level == LevelOf(linesCleared) && dropInterval == 500 - 30 * (level - 1)
      ensures cleared <= 4 && (cleared == 0 ==> score == old(score))
      ensures (cleared == 1 ==> score == old(score) + 100 * old(level))
              && (cleared == 2 ==> score == old(score) + 300 * old(level))
              && (cleared == 3 ==> score == old(score) + 500 * old(level))
              && (cleared == 4 ==> score == old(score) + 800 * old(level))
    {
      var removed := RemoveFullRows();
      cleared := removed;
      if removed > 0 {
        score := score + [0, 100, 300, 500, 800][removed] * level;
        linesCleared := linesCleared + removed;
        if linesCleared / 10 >= level && level < 15 {
          level := level + 1;
          dropInterval := dropInterval - 30;
          dropInterval := if dropInterval < 50 then 50 else dropInterval;
        }
      }
    }

    /** Lock, clear, and bring in the next piece. Every visible block fills a cell, and every cleared
        row removes ten. */
    method Settle(draw: nat) returns (ghost cleared: nat)
      requires Valid()
      modifies this, board
      ensures Valid()
      ensures currentPiece == Spawned(old(nextPiece)) && (gameOver <==> old(gameOver) || !Fits(board[..], currentPiece))
      ensures nextPiece == CreateTetromino(draw % 7)
      ensures cleared == FullCount(Rows(Locked(old(board[..]), old(currentPiece), 4))) <= 4
      ensures linesCleared == old(linesCleared) + cleared
      ensures score == old(score) + Points(cleared) * old(level)
      ensures Rows(board[..]) == Cleared(Rows(Locked(old(board[..]), old(currentPiece), 4)))
      ensures Fits(old(board[..]), old(currentPiece)) ==>
                Filled(Rows(board[..]))
                == Filled(Rows(old(board[..]))) + Visible(old(currentPiece), 4) - BOARD_WIDTH * cleared
    {
      ghost var b: Board := board[..];
      KeepCounts(Rows(b));
      LockedCounts(b, currentPiece, 4);
      LockPiece();
      ClearedCounts(Rows(board[..]));
      cleared := ClearLines();
      SpawnPiece(draw);
    }

    /** `move_piece`: the piece moves if it fits there; a piece that cannot go down settles. */
    method MovePiece(dx: int, dy: int, draw: nat)
      requires Valid()
      modifies this, board
      ensures Valid()
      ensures Fits(old(board[..]), Moved(old(currentPiece), dx, dy)) ==>
                && currentPiece == Moved(old(currentPiece), dx, dy) && board[..] == old(board[..])
                && currentPiece.x == old(currentPiece).x + dx && currentPiece.y == old(currentPiece).y + dy
      ensures !Fits(old(board[..]), Moved(old(currentPiece), dx, dy)) && dy <= 0 ==>
                currentPiece == old(currentPiece) && board[..] == old(board[..])
      ensures Fits(old(board[..]), Moved(old(currentPiece), dx, dy)) || dy <= 0 ==>
                score == old(score) && linesCleared == old(linesCleared)
                && nextPiece == old(nextPiece) && gameOver == old(gameOver)
      ensures !Fits(old(board[..]), Moved(old(currentPiece), dx, dy)) && dy > 0 ==>
                var cleared := linesCleared - old(linesCleared);
                && Settled(old(board[..]), old(currentPiece), board[..], cleared)
                && score == old(score) + Points(cleared) * old(level)
                && currentPiece == Spawned(old(nextPiece)) && nextPiece == CreateTetromino(draw % 7)
                && (gameOver <==> old(gameOver) || !Fits(board[..], currentPiece))
    {
      hide Locked, Rows, Cleared, Filled, FullCount, NoneFull;
      var fits := IsValidPosition(currentPiece, dx, dy);
      if fits {
        currentPiece := currentPiece.(x := currentPiece.x + dx, y := currentPiece.y + dy);
      } else if dy > 0 {
        ghost var cleared := Settle(draw);
      }
    }

    /** The soft-drop key of `tetris_run`: a move down, and one point, also when the piece settles. */
    method SoftDrop(draw: nat)
      requires Valid()
      modifies this, board
      ensures Valid()
      ensures Fits(old(board[..]), Moved(old(currentPiece), 0, 1)) ==>
                currentPiece == Moved(old(currentPiece), 0, 1) && board[..] == old(board[..])
                && score == old(score) + 1 && linesCleared == old(linesCleared)
                && nextPiece == old(nextPiece) && gameOver == old(gameOver)
      ensures !Fits(old(board[..]), Moved(old(currentPiece), 0, 1)) ==>
                var cleared := linesCleared - old(linesCleared);
                && Settled(old(board[..]), old(currentPiece), board[..], cleared)
                && score == old(score) + 1 + Points(cleared) * old(level)
                && currentPiece == Spawned(old(nextPiece)) && nextPiece == CreateTetromino(draw % 7)
                && (gameOver <==> old(gameOver) || !Fits(board[..], currentPiece))
    {
      hide Locked, Rows, Cleared, Filled, FullCount, NoneFull;
      MovePiece(0, 1, draw);
      score := score + 1;
    }

    /** The loop of `hard_drop`: straight down as far as it fits, two points a row. */
    method Drop() returns (ghost rows: nat)
      requires board.Length == CELLS && Fits(board[..], currentPiece)
      modifies `currentPiece, `score
      ensures currentPiece == Moved(old(currentPiece), 0, rows) && score == old(score) + 2 * rows
      ensures forall k :: 0 <= k <= rows ==> Fits(board[..], Moved(old(currentPiece), 0, k))
      ensures !Fits(board[..], Moved(old(currentPiece), 0, rows + 1))
    {
      ghost var start := currentPiece;
      rows := 0;
      assert Moved(start, 0, 0) == start;
      var fits := IsValidPosition(currentPiece, 0, 1);
      while fits
        invariant currentPiece == Moved(start, 0, rows) && score == old(score) + 2 * rows
        invariant forall k :: 0 <= k <= rows ==> Fits(board[..], Moved(start, 0, k))
        invariant fits <==> Fits(board[..], Moved(start, 0, rows + 1))
        decreases BOARD_HEIGHT - currentPiece.y - start.blocks[0].y
      {
        currentPiece := currentPiece.(y := currentPiece.y + 1);
        score := score + 2;
        rows := rows + 1;
        assert BlockY(Moved(start, 0, rows), 0) < BOARD_HEIGHT;
        fits := IsValidPosition(currentPiece, 0, 1);
      }
    }

    /** `hard_drop`. */
    method HardDrop(draw: nat) returns (ghost rows: nat)
      requires Valid() && !gameOver
      modifies this, board
      ensures Valid()
      ensures forall k :: 0 <= k <= rows ==> Fits(old(board[..]), Moved(old(currentPiece), 0, k))
      ensures !Fits(old(board[..]), Moved(old(currentPiece), 0, rows + 1))
      ensures var cleared := linesCleared - old(linesCleared);
              && Settled(old(board[..]), Moved(old(currentPiece), 0, rows), board[..], cleared)
              && score == old(score) + 2 * rows + Points(cleared) * old(level)
      ensures currentPiece == Spawned(old(nextPiece)) && nextPiece == CreateTetromino(draw % 7)
      ensures gameOver <==> !Fits(board[..], currentPiece)
    {
      hide Locked, Rows, Cleared, Filled, FullCount, NoneFull;
      rows := Drop();
      ghost var cleared := Settle(draw);
    }
  }

  lemma EmptyBoard(b: Board)
    requires forall i :: 0 <= i < CELLS ==> b[i] == 0
    ensures NoneFull(Rows(b)) && Filled(Rows(b)) == 0
  {
    assert forall k: nat :: k < BOARD_HEIGHT ==> RowAt(b, k) == EmptyRow();
    assert Rows(b) == EmptyRows(|Rows(b)|);
    FilledEmpty(|Rows(b)|);
    assert EmptyRow()[0] == 0;
  }

  /** What settling piece p does to board b: full rows go, and the number of filled cells grows by
      the visible blocks and shrinks by ten for each of the at most four cleared rows. */
  ghost predicate Settled(b: Board, p: Tetromino, now: Board, cleared: int) {
    && InRange(p) && cleared == FullCount(Rows(Locked(b, p, 4))) <= 4
    && Rows(now) == Cleared(Rows(Locked(b, p, 4))) && NoneFull(Rows(now))
    && (Fits(b, p) ==> Filled(Rows(now)) == Filled(Rows(b)) + Visible(p, 4) - BOARD_WIDTH * cleared)
  }

  /** Where a turned piece ends up: the first of five places where it fits, or not turned at all. */
  function Kicked(b: Board, p: Tetromino): Tetromino
    requires WellFormed(p)
  {
    var t := Turned(p);
    if p.color == 2 then p
    else if Fits(b, t) then t
    else if Fits(b, Moved(t, -1, 0)) then Moved(t, -1, 0)
    else if Fits(b, Moved(t, 1, 0)) then Moved(t, 1, 0)
    else if Fits(b, Moved(t, -2, 0)) then Moved(t, -2, 0)
    else if Fits(b, Moved(t, 2, 0)) then Moved(t, 2, 0)
    else p
  }

  /** The piece turned about its block place (1, 1) and moved sideways is on the board and on no filled cell. */
  predicate TurnFits(b: Board, p: Tetromino, side: int)
    requires |p.blocks| == 4
  {
    forall i :: 0 <= i < 4 ==>
      var u, v := p.blocks[i].x - 1, p.blocks[i].y - 1;
      OnFree(b, p.x + side + 1 + v, p.y + 1 - u)
  }

  /** Between the walls, above the floor, and on no filled cell. */
  predicate OnFree(b: Board, x: int, y: int) { 0 <= x < 10 && y < 20 && (y >= 0 ==> b[10 * y + x] == 0) }

  /** A piece fits when each of its blocks does. */
  lemma FitsCells(b: Board, p: Tetromino)
    requires WellFormed(p)
    ensures Fits(b, p) <==> forall i :: 0 <= i < 4 ==> OnFree(b, p.x + p.blocks[i].x, p.y + p.blocks[i].y)
  {
    if forall i :: 0 <= i < 4 ==> OnFree(b, p.x + p.blocks[i].x, p.y + p.blocks[i].y) {
      forall i | 0 <= i < 4
        ensures 0 <= BlockX(p, i) < BOARD_WIDTH && BlockY(p, i) < BOARD_HEIGHT && FreeBlock(b, p, i)
      {
        assert OnFree(b, p.x + p.blocks[i].x, p.y + p.blocks[i].y);
      }
    }
    if Fits(b, p) {
      forall i | 0 <= i < 4 ensures OnFree(b, p.x + p.blocks[i].x, p.y + p.blocks[i].y) {
        assert FreeBlock(b, p, i) && 0 <= BlockX(p, i);
      }
    }
  }

  /** In coordinates: a block at (u, v) from the pivot ends at (v, -u) from it, after the first of the side steps
      0, -1, 1, -2 and 2 with which the piece fits; with none it stays, and the square always does. */
  lemma KickedInCoordinates(b: Board, p: Tetromino, k: nat)
    requires WellFormed(p) && k < 5
    ensures p.color == 2 ==> Kicked(b, p) == p
    ensures (forall j :: 0 <= j < 5 ==> !TurnFits(b, p, [0, -1, 1, -2, 2][j])) ==> Kicked(b, p) == p
    ensures var sides := [0, -1, 1, -2, 2];
            p.color != 2 && TurnFits(b, p, sides[k]) && (forall j :: 0 <= j < k ==> !TurnFits(b, p, sides[j])) ==>
              var q := Kicked(b, p);
              && q.x == p.x + sides[k] && q.y == p.y && q.color == p.color && |q.blocks| == 4
              && forall i :: 0 <= i < 4 ==>
                   q.blocks[i].x - 1 == p.blocks[i].y - 1 && q.blocks[i].y - 1 == -(p.blocks[i].x - 1)
  {
    var sides := [0, -1, 1, -2, 2];
    TurnedWellFormed(p);
    forall j | 0 <= j < 5 ensures TurnFits(b, p, sides[j]) <==> Fits(b, Moved(Turned(p), sides[j], 0)) {
      TurnFitsMeans(b, p, sides[j]);
    }
    assert Moved(Turned(p), 0, 0) == Turned(p);
    assert sides[0] == 0 && sides[1] == -1 && sides[2] == 1 && sides[3] == -2 && sides[4] == 2;
    hide Fits, TurnFits;
  }

  lemma TurnFitsMeans(b: Board, p: Tetromino, side: int)
    requires WellFormed(p)
    ensures TurnFits(b, p, side) <==> Fits(b, Moved(Turned(p), side, 0))
  {
    var q := Moved(Turned(p), side, 0);
    TurnedWellFormed(p);
    FitsCells(b, q);
    forall i | 0 <= i < 4
      ensures q.x + q.blocks[i].x == p.x + side + 1 + (p.blocks[i].y - 1)
      ensures q.y + q.blocks[i].y == p.y + 1 - (p.blocks[i].x - 1)
    {}
  }
}

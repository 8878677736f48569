/** The 2048 program: the board and the score, changed in place. */
module Play2048 {
  import opened Game2048
  import opened Score2048
  import opened Slide2048
  import opened Moves2048

  class Game {
    const board: array<int>
    var score: int
    var won: bool
    var gameOver: bool
    /** How many tiles of value 4 have been spawned since the game began. */
    ghost var fours: nat

    /** Score and worth of the board agree, up to the fours that came for free; the game is over exactly when no
        move changes the board, and won exactly when some tile is at least 2048. */
    ghost predicate Valid()
      reads this, board
    {
      && board.Length == CELLS && Cells(board[..]) && HasTile(board[..])
      && score == SumWorth(board[..]) - 4 * fours
      && (gameOver <==> !Playable(board[..]))
      && (won <==> Big(board[..]))
    }

    /** The loop over x of `slide_left`, for one row. */
    method SlideOneRow(y: nat) returns (moved: bool)
      requires board.Length == CELLS && y < SIZE
      modifies board, `score, `won
      ensures RowSlides(old(board[..]), board[..], y, old(score), score, old(won), won, moved)
    {
      hide Merge, Compact, Gains;
      ghost var r := Row(board[..], y);
      var merged := new bool[SIZE](i => false);
      moved := false;
      FirstCell(r);
      var x := 1;
      while x < SIZE
        invariant 1 <= x <= SIZE
        invariant Row(board[..], y) == SlidUpTo(r, x)
        invariant forall k: nat :: k < SIZE && k != y ==> Row(board[..], k) == Row(old(board[..]), k)
        invariant score == old(score) + Sum(Gains(Compact(r[..x])))
        invariant won <==> old(won) || Reaches2048(Gains(Compact(r[..x])))
        invariant moved <==> MovedBy(r, x)
        invariant Marks(merged[..], r, x)
      {
        moved := SlideCell(y, x, merged, moved, r);
        GainsNext(r, x);
        x := x + 1;
      }
      assert r[..SIZE] == r && SlidUpTo(r, SIZE) == SlideRow(r);
    }

    /** One step of that loop. */
    method SlideCell(y: nat, x: nat, merged: array<bool>, movedBefore: bool, ghost r: seq<int>) returns (moved: bool)
      requires board.Length == CELLS && merged.Length == SIZE && y < SIZE && 1 <= x < SIZE && |r| == SIZE
      requires Row(board[..], y) == SlidUpTo(r, x)
      requires movedBefore <==> MovedBy(r, x)
      requires Marks(merged[..], r, x)
      modifies board, `score, `won, merged
      ensures StoredRow(old(board[..]), board[..], r, y, x)
      ensures score == old(score) + if Joins(r, x) then 2 * r[x] else 0
      ensures won <==> old(won) || (Joins(r, x) && 2 * r[x] == 2048)
      ensures moved <==> MovedBy(r, x + 1)
      ensures Marks(merged[..], r, x + 1)
    {
      hide Merge, Compact, Gains, MovedBy, Tail, SlideRow, SlidUpTo, StoredRow, Row, Marks;
      moved := movedBefore;
      ghost var n, b: Board := Tail(r, x), board[..];
      var base := SIZE * y;
      CellStep(b, r, y, x);
      MarksNext(merged[..], r, x);
      MovedNext(r, x);
      if board[base + x] == 0 { return; }
      var newX := LeftEnd(y, x, n);
      CellJoins(b, merged[..], r, y, x);
      if newX > 0 && board[base + newX - 1] == board[base + x] && !merged[newX - 1] {
        MergeCell(y, x, newX, r);
        merged[newX - 1] := true;
        moved := true;
      } else if newX != x {
        board[base + newX] := board[base + x];
        board[base + x] := 0;
        moved := true;
      }
    }

    /** Cell x merges into the last tile. */
    method MergeCell(y: nat, x: nat, newX: nat, ghost r: seq<int>)
      requires board.Length == CELLS && y < SIZE && 1 <= x < SIZE && |r| == SIZE
      requires Row(board[..], y) == SlidUpTo(r, x) && Joins(r, x) && newX == Tail(r, x) > 0
      requires board[SIZE * y + newX - 1] == r[x]
      modifies board, `score, `won
      ensures StoredRow(old(board[..]), board[..], r, y, x)
      ensures score == old(score) + 2 * r[x] && (won <==> old(won) || 2 * r[x] == 2048)
    {
      hide Merge, Compact, SlideRow, SlidUpTo, Tail, Row, StoredRow, Joins;
      CellStep(board[..], r, y, x);
      var base := SIZE * y;
      board[base + newX - 1] := board[base + newX - 1] * 2;
      score := score + board[base + newX - 1];
      board[base + x] := 0;
      if board[base + newX - 1] == 2048 && !won {
        won := true;
      }
    }

    /** The gap to the left of cell x begins at n. */
    method LeftEnd(y: nat, x: nat, ghost n: nat) returns (newX: nat)
      requires board.Length == CELLS && y < SIZE && n <= x < SIZE
      requires forall i :: n <= i < x ==> Row(board[..], y)[i] == 0
      requires n > 0 ==> Row(board[..], y)[n - 1] != 0
      ensures newX == n
    {
      ghost var row := Row(board[..], y);
      newX := x;
      while newX > 0 && board[SIZE * y + newX - 1] == 0
        invariant n <= newX <= x && (newX > 0 ==> board[SIZE * y + newX - 1] == row[newX - 1])
      {
        newX := newX - 1;
      }
    }

    /** `slide_left`. */
    method Slide() returns (moved: bool)
      requires board.Length == CELLS
      modifies board, `score, `won
      ensures board[..] == SlideLeft(old(board[..]))
      ensures score == old(score) + Sum(SlideGains(old(board[..])))
      ensures won <==> old(won) || Reaches2048(SlideGains(old(board[..])))
      ensures moved <==> board[..] != old(board[..])
    {
      hide *;
      ghost var b: Board := board[..];
      moved := false;
      NothingSlid(b, score, won);
      var y := 0;
      while y < SIZE
        invariant 0 <= y <= SIZE && Progress(b, board[..], y, old(score), score, old(won), won, moved)
      {
        ghost var before: Board, points, hadWon, hadMoved := board[..], score, won, moved;
        var moves := SlideOneRow(y);
        moved := moved || moves;
        RowSlid(b, before, board[..], y, old(score), points, score, old(won), hadWon, won, hadMoved, moves, moved);
        y := y + 1;
      }
      AllSlid(b, board[..], y, old(score), score, old(won), won, moved);
    }

    /** `rotate_board`. */
    method RotateBoard()
      requires board.Length == CELLS
      modifies board
      ensures board[..] == Rotate(old(board[..]))
    {
      ghost var b: Board := board[..];
      var temp := new int[CELLS];
      var y := 0;
      while y < SIZE
        invariant 0 <= y <= SIZE && board[..] == b
        invariant forall j, i :: 0 <= j < y && 0 <= i < SIZE ==> temp[SIZE * i + (SIZE - 1 - j)] == At(b, j, i)
      {
        var x := 0;
        while x < SIZE
          invariant 0 <= x <= SIZE && board[..] == b
          invariant forall j, i :: 0 <= j < SIZE && 0 <= i < SIZE && (j < y || (j == y && i < x)) ==>
                      temp[SIZE * i + (SIZE - 1 - j)] == At(b, j, i)
        {
          temp[SIZE * x + (SIZE - 1 - y)] := board[SIZE * y + x];
          x := x + 1;
        }
        y := y + 1;
      }
      Turned(b, temp[..]);
      var k := 0;
      while k < CELLS
        invariant 0 <= k <= CELLS && temp[..] == Rotate(b)
        invariant forall i :: 0 <= i < k ==> board[i] == temp[i]
      {
        board[k] := temp[k];
        k := k + 1;
      }
    }

    method RotateTimes(n: nat)
      requires board.Length == CELLS
      modifies board
      ensures board[..] == Rotations(old(board[..]), n)
    {
      var r := 0;
      while r < n
        invariant 0 <= r <= n && board[..] == Rotations(old(board[..]), r)
      {
        RotateBoard();
        r := r + 1;
      }
    }

    /** `move`. */
    method Move(direction: nat) returns (moved: bool)
      requires board.Length == CELLS && direction < 4
      modifies board, `score, `won
      ensures board[..] == MoveBoard(old(board[..]), direction)
      ensures score == old(score) + Sum(MoveGains(old(board[..]), direction))
      ensures won <==> old(won) || Reaches2048(MoveGains(old(board[..]), direction))
      ensures moved <==> board[..] != old(board[..])
    {
      MoveChanges(board[..], direction);
      RotateTimes(direction);
      moved := Slide();
      RotateTimes((4 - direction) % 4);
    }

    /** `add_tile`: a tile on an empty cell, if there is one; the draws say on which, counted row by row, and whether
        it is a 4 rather than a 2, one time in ten. */
    method AddTile(pick: nat, roll: nat) returns (ghost i: nat, ghost v: int)
      requires board.Length == CELLS
      modifies board
      ensures if EmptyBefore(old(board[..]), CELLS) > 0
              then && i < CELLS && old(board[..])[i] == 0 && v == (if roll % 10 == 0 then 4 else 2)
                   && EmptyBefore(old(board[..]), i) == pick % EmptyBefore(old(board[..]), CELLS)
                   && board[..] == old(board[..])[i := v]
              else board[..] == old(board[..])
    {
      ghost var b: Board := board[..];
      var empty := new nat[CELLS];
      var emptyCount := 0;
      var y := 0;
      while y < SIZE
        invariant 0 <= y <= SIZE && board[..] == b && emptyCount == EmptyBefore(b, SIZE * y)
        invariant forall k :: 0 <= k < emptyCount ==> IsEmptyCell(b, empty[k], k)
      {
        var x := 0;
        while x < SIZE
          invariant 0 <= x <= SIZE && board[..] == b && emptyCount == EmptyBefore(b, SIZE * y + x)
          invariant forall k :: 0 <= k < emptyCount ==> IsEmptyCell(b, empty[k], k)
        {
          if board[SIZE * y + x] == 0 {
            empty[emptyCount] := SIZE * y + x;
            emptyCount := emptyCount + 1;
          }
          x := x + 1;
        }
        y := y + 1;
      }
      i, v := 0, 0;
      if emptyCount > 0 {
        var pos := empty[pick % emptyCount];
        assert IsEmptyCell(b, pos, pick % emptyCount);
        board[pos] := if roll % 10 == 0 then 4 else 2;
        i, v := pos, board[pos];
      }
    }

    /** `can_move`. */
    method CanMove() returns (can: bool)
      requires board.Length == CELLS
      ensures can <==> Playable(board[..])
    {
      ghost var b: Board := board[..];
      var y := 0;
      while y < SIZE
        invariant 0 <= y <= SIZE
        invariant forall j, i :: 0 <= j < y && 0 <= i < SIZE ==> !PlayableAt(b, j, i)
      {
        var x := 0;
        while x < SIZE
          invariant 0 <= x <= SIZE
          invariant forall j, i :: 0 <= j < SIZE && 0 <= i < SIZE && (j < y || (j == y && i < x)) ==>
                      !PlayableAt(b, j, i)
        {
          var k := SIZE * y + x;
          assert board[k] == At(b, y, x);
          assert x < SIZE - 1 ==> board[k + 1] == At(b, y, x + 1);
          assert y < SIZE - 1 ==> board[k + SIZE] == At(b, y + 1, x);
          if board[k] == 0 || (x < SIZE - 1 && board[k] == board[k + 1])
             || (y < SIZE - 1 && board[k] == board[k + SIZE]) {
            assert PlayableAt(b, y, x);
            return true;
          }
          x := x + 1;
        }
        y := y + 1;
      }
      can := false;
    }

    /** Before the first game. */
    constructor ()
      ensures Valid() && fresh(board) && !gameOver && !won && score == 0
      ensures fours <= 2 && Sum(board[..]) == 4 + 2 * fours
    {
      board := new int[CELLS](i => 0);
      score, won, gameOver, fours := 0, false, false, 0;
      new;
      Init();
    }

    /** `init_2048`: an empty board and two tiles. */
    method Init()
      requires board.Length == CELLS
      modifies this, board
      ensures Valid() && !gameOver && !won && score == 0
      ensures fours <= 2 && Sum(board[..]) == 4 + 2 * fours
    {
      forall i | 0 <= i < CELLS { board[i] := 0; }
      score, won, gameOver, fours := 0, false, false, 0;
      EmptySums(board[..]);
      ghost var spots: seq<nat> := [];
      var tiles := 0;
      while tiles < 2
        invariant 0 <= tiles <= 2 && !gameOver && !won && score == 0
        invariant fours <= tiles && Sum(board[..]) == 2 * tiles + 2 * fours && !Big(board[..])
        invariant Cells(board[..]) && score == SumWorth(board[..]) - 4 * fours
        invariant |spots| == tiles && forall i :: 0 <= i < CELLS && board[i] != 0 ==> i in spots
        invariant tiles > 0 ==> HasTile(board[..])
      {
        ghost var b: Board := board[..];
        EmptyCell(b, spots);
        var pos: nat :| pos < CELLS && board[pos] == 0;
        var four: bool := *;
        var v := if four then 4 else 2;
        board[pos] := v;
        SpawnSums(b, pos, v);
        SpawnBig(b, pos, v);
        spots := spots + [pos];
        assert board[pos] != 0;
        fours := fours + if four then 1 else 0;
        tiles := tiles + 1;
      }
      EmptyCell(board[..], spots);
      EmptyIsPlayable(board[..]);
    }

    /** A direction key: a move that changes the board is followed by a new tile, and by the test for
        the end of the game. */
    method Key(direction: nat, pick: nat, roll: nat)
      requires Valid() && direction < 4
      modifies this, board
      ensures Valid()
      ensures old(gameOver) || MoveBoard(old(board[..]), direction) == old(board[..]) ==>
                board[..] == old(board[..]) && score == old(score) && gameOver == old(gameOver)
                && fours == old(fours) && won == old(won)
      ensures !old(gameOver) && MoveBoard(old(board[..]), direction) != old(board[..]) ==>
                score == old(score) + Sum(MoveGains(old(board[..]), direction))
                && (won <==> old(won) || 2048 in MoveGains(old(board[..]), direction))
                && fours == old(fours) + (if roll % 10 == 0 then 1 else 0)
                && Spawned(MoveBoard(old(board[..]), direction), board[..], pick, roll % 10 == 0)
    {
      hide EmptyBefore, MoveBoard, MoveGains, Sum, SumWorth, Big, Reaches2048, Cells, Playable;
      if !gameOver {
        ghost var b: Board := board[..];
        var moved := Move(direction);
        MoveSums(b, direction);
        MoveBig(b, direction);
        ReachesIn(MoveGains(b, direction));
        if moved {
          MoveLeavesRoom(b, direction);
          ghost var m: Board := board[..];
          NoneEmpty(m, CELLS);
          ghost var i, v := AddTile(pick, roll);
          SpawnSums(m, i, v);
          SpawnBig(m, i, v);
          fours := fours + if v == 4 then 1 else 0;
          var can := CanMove();
          if !can {
            gameOver := true;
          }
          assert board[i] != 0;
        }
      }
    }

    /** A direction key, by the side to which it slides the tiles: if that changes the board, a tile appears. */
    method KeyTo(direction: nat, pick: nat, roll: nat)
      requires Valid() && direction < 4
      modifies this, board
      ensures Valid()
      ensures !old(gameOver) && !SlidTo(old(board[..]), SideOf(direction), old(board[..])) ==>
                SlidAndSpawned(old(board[..]), SideOf(direction), board[..], pick, roll % 10 == 0)
      ensures old(gameOver) || SlidTo(old(board[..]), SideOf(direction), old(board[..])) ==>
                board[..] == old(board[..]) && score == old(score) && won == old(won) && gameOver == old(gameOver)
    {
      hide MoveBoard, SlidTo, MoveGains, Sum, Big, Cells, Playable, SumWorth, Spawned, SideOf;
      MoveSlides(board[..], direction);
      Key(direction, pick, roll);
    }

    /** A key of `game2048_run`, by character code; r starts again, q leaves. */
    method Press(c: int, pick: nat, roll: nat) returns (quit: bool)
      requires Valid()
      modifies this, board
      ensures Valid() && (quit <==> c == 'q' as int || c == 'Q' as int)
      ensures c in {'r' as int, 'R' as int} ==> !gameOver && !won && score == 0 && Sum(board[..]) == 4 + 2 * fours
      ensures MovesTo(c).Some? && !old(gameOver) && !SlidTo(old(board[..]), MovesTo(c).value, old(board[..])) ==>
                SlidAndSpawned(old(board[..]), MovesTo(c).value, board[..], pick, roll % 10 == 0)
      ensures c !in {'r' as int, 'R' as int}
              && (MovesTo(c).Some? ==> old(gameOver) || SlidTo(old(board[..]), MovesTo(c).value, old(board[..]))) ==>
                board[..] == old(board[..]) && score == old(score) && won == old(won) && gameOver == old(gameOver)
    {
      hide SlidTo, Sum, Big, Cells, Playable, SumWorth, SlidAndSpawned, HasTile;
      quit := false;
      var dir := -1;
      if c == 75 || c == 'a' as int || c == 'A' as int {
        dir := 3;
      } else if c == 77 || c == 'd' as int || c == 'D' as int {
        dir := 1;
      } else if c == 72 || c == 'w' as int || c == 'W' as int {
        dir := 0;
      } else if c == 80 || c == 's' as int || c == 'S' as int {
        dir := 2;
      } else if c == 'r' as int || c == 'R' as int {
        Init();
      } else if c == 'q' as int || c == 'Q' as int {
        return true;
      }
      assert dir >= 0 <==> MovesTo(c).Some?;
      assert dir >= 0 ==> SideOf(dir) == MovesTo(c).value;
      hide MovesTo, SideOf;
      if dir >= 0 {
        KeyTo(dir, pick, roll);
      }
    }
  }
}

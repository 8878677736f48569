/** Minesweeper: mine placement, the recursive reveal, and the win bookkeeping, in place. */
module Minesweeper {
  import opened Minefield

  class Game {
    const grid: array<Cell>
    var gameOver: bool
    var gameWon: bool
    var revealedCount: int
    var flagCount: int
    var firstClick: bool

    ghost predicate Valid()
      reads this, grid
    {
      grid.Length == CELLS
      && Consistent(grid[..], revealedCount, flagCount, firstClick, gameWon, gameOver)
    }

    constructor ()
      ensures Valid() && fresh(grid) && firstClick && !gameOver && flagCount == 0
      ensures forall i :: 0 <= i < grid.Length ==> grid[i] == Cell(false, 0, Hidden)
    {
      grid := new Cell[CELLS](i => Cell(false, 0, Hidden));
      gameOver, gameWon := false, false;
      revealedCount, flagCount := 0, 0;
      firstClick := true;
      new;
      assert WithState(grid[..], Revealed) == {} && WithState(grid[..], Flagged) == {} && Mines(grid[..]) == {};
    }

    /** The reveal key at the cursor, on the grid `start`: the first one places the mines. Unless it hits
        a mine it reveals a flood F and the bookkeeping stays right; the first one never hits a mine, and
        opens its cell unless that is flagged. */
    method RevealKey(x: int, y: int) returns (ghost start: Grid, ghost F: set<Pos>)
      requires Valid() && In(Pos(x, y)) && !gameOver
      modifies this, grid
      ensures !firstClick
      ensures if old(firstClick) then MinesPlaced(old(grid[..]), start, Pos(x, y)) else start == old(grid[..])
      ensures old(firstClick) ==>
                && !At(start, Pos(x, y)).mine
                && (Open(start, Pos(x, y)) <==> At(old(grid[..]), Pos(x, y)).state != Flagged)
      ensures Reveals(start, grid[..], Pos(x, y), F) && flagCount == old(flagCount)
      ensures if Open(start, Pos(x, y)) && At(start, Pos(x, y)).mine
              then gameOver && !gameWon && revealedCount == old(revealedCount) + 1
              else Valid()
    {
      hide Consistent, IsFlood, Marked, Clear, OpenSafe, MinesPlaced, Exploded;
      if firstClick {
        FirstClick(x, y);
      }
      start := grid[..];
      ghost var c := Pos(x, y);
      ReadyToReveal(start, revealedCount, flagCount, gameWon, gameOver);
      F := RevealCell(x, y);
      if Open(start, c) && !At(start, c).mine {
        FloodSafe(start, c, F);
        FloodConsistent(start, grid[..], F, old(revealedCount), flagCount, old(gameWon), old(gameOver),
                        gameWon, gameOver);
      }
    }

    /** The first click places the mines away from it. */
    method FirstClick(x: int, y: int)
      requires Valid() && firstClick && In(Pos(x, y))
      modifies grid, `firstClick
      ensures Valid() && !firstClick && !At(grid[..], Pos(x, y)).mine
      ensures MinesPlaced(old(grid[..]), grid[..], Pos(x, y))
      ensures Open(grid[..], Pos(x, y)) <==> At(old(grid[..]), Pos(x, y)).state != Flagged
    {
      ghost var before: Grid := grid[..];
      PlaceMines(x, y);
      FirstOpened(before, grid[..], Pos(x, y), revealedCount, flagCount, gameWon, gameOver);
      firstClick := false;
      StartConsistent(before, grid[..], revealedCount, flagCount, gameWon, gameOver);
    }

    /** `chord_reveal`: when the flags match the count, it reveals exactly the flood F around the cell, and
        every mine if one of them is hidden beside it. Without a mine the bookkeeping stays right. With one the
        game is lost, and m is the first mine in the order of the loop and G what was opened before it; the game
        comes out as won as well exactly when the count ends at 216 and a safe neighbour is opened after m. */
    method ChordReveal(x: int, y: int) returns (ghost F: set<Pos>, ghost m: Pos, ghost G: set<Pos>)
      requires Valid() && In(Pos(x, y)) && !gameOver
      modifies this, grid
      ensures var g: Grid, c := old(grid[..]), Pos(x, y);
              var hit := MineBeside(g, c);
              if At(g, c).state == Revealed && |FlagsNear(g, c)| == At(g, c).adjacent
              then IsFloodAround(g, c, F) && Shown(g, grid[..], F, hit) && flagCount == old(flagCount)
                   && revealedCount == old(revealedCount) + |F| + (if hit then 1 else 0)
                   && if hit
                      then gameOver && revealedCount <= CELLS - MINE_COUNT
                           && FirstMine(g, c, m) && IsFloodBefore(g, c, m, G)
                           && (gameWon <==> revealedCount == CELLS - MINE_COUNT && OpensLater(g, c, G))
                      else Valid()
              else grid[..] == g && Valid()
    {
      hide Consistent, IsFloodAround, Shown, MineBeside, FirstMine, IsFloodBefore, OpensLater;
      var i := GRID_SIZE * y + x;
      ghost var g: Grid, c := grid[..], Pos(x, y);
      F, m, G := {}, c, {};
      if grid[i].state != Revealed { return; }
      Started(g, c, revealedCount, flagCount, firstClick, gameWon, gameOver);
      var flags := FlagsAround(x, y);
      if flags == grid[i].adjacent {
        RoomToChord(g, c, revealedCount, flagCount, gameWon, gameOver);
        F, m, G := ChordNeighbours(x, y);
      }
    }

    /** The second double loop of `chord_reveal`. */
    method ChordNeighbours(x: int, y: int) returns (ghost F: set<Pos>, ghost m: Pos, ghost G: set<Pos>)
      requires Valid() && !firstClick && !gameOver
      requires MineBeside(grid[..], Pos(x, y)) ==> revealedCount + |OpenSafe(grid[..])| < CELLS - MINE_COUNT
      modifies grid, `revealedCount, `gameOver, `gameWon
      ensures var g: Grid, c := old(grid[..]), Pos(x, y);
              var hit := MineBeside(g, c);
              && IsFloodAround(g, c, F) && Shown(g, grid[..], F, hit)
              && revealedCount == old(revealedCount) + |F| + (if hit then 1 else 0)
              && if hit
                 then gameOver && revealedCount <= CELLS - MINE_COUNT
                      && FirstMine(g, c, m) && IsFloodBefore(g, c, m, G)
                      && (gameWon <==> revealedCount == CELLS - MINE_COUNT && OpensLater(g, c, G))
                 else Valid()
    {
      hide Consistent, Chording, IsFloodAround, Shown, Clear, MineBeside, OpenSafe, Marked, FirstMine, IsFloodBefore,
           OpensLater;
      ghost var g: Grid, c := grid[..], Pos(x, y);
      ReadyToReveal(g, revealedCount, flagCount, gameWon, gameOver);
      F, m, G := {}, c, {};
      ghost var hit := false;
      ChordStart(g, c);
      var dy := -1;
      while dy <= 1
        invariant -1 <= dy <= 2 && Chording(g, grid[..], c, F, hit, dy, -1) && HitAt(g, c, F, hit, m, G)
        invariant revealedCount == old(revealedCount) + |F| + if hit then 1 else 0
        invariant ChordFlags(hit, gameWon, gameOver, old(revealedCount), revealedCount, F != G)
      {
        var dx := -1;
        while dx <= 1
          invariant -1 <= dx <= 2 && Chording(g, grid[..], c, F, hit, dy, dx) && HitAt(g, c, F, hit, m, G)
          invariant revealedCount == old(revealedCount) + |F| + if hit then 1 else 0
          invariant ChordFlags(hit, gameWon, gameOver, old(revealedCount), revealedCount, F != G)
        {
          F, hit, m, G := ChordVisit(x, y, dx, dy, g, F, hit, m, G, old(revealedCount));
          dx := dx + 1;
        }
        ChordRow(g, grid[..], c, F, hit, dy);
        dy := dy + 1;
      }
      ChordDone(g, grid[..], c, F, hit);
      if hit {
        LaterOpened(g, c, F, m, G);
      } else {
        FloodMarked(g, grid[..], c, F);
        FloodConsistent(g, grid[..], F, old(revealedCount), flagCount, old(gameWon), old(gameOver), gameWon, gameOver);
      }
    }

    /** One neighbour in the second double loop of `chord_reveal`. */
    method ChordVisit(x: int, y: int, dx: int, dy: int, ghost g: Grid, ghost F: set<Pos>, ghost hit: bool, ghost m: Pos,
                      ghost G: set<Pos>, ghost start: int)
      returns (ghost F': set<Pos>, ghost hit': bool, ghost m': Pos, ghost G': set<Pos>)
      requires grid.Length == CELLS && Clear(g) && -1 <= dx <= 1 && -1 <= dy <= 1
      requires MineBeside(g, Pos(x, y)) ==> start + |OpenSafe(g)| < CELLS - MINE_COUNT
      requires Chording(g, grid[..], Pos(x, y), F, hit, dy, dx) && HitAt(g, Pos(x, y), F, hit, m, G)
      requires revealedCount == start + |F| + if hit then 1 else 0
      requires ChordFlags(hit, gameWon, gameOver, start, revealedCount, F != G)
      modifies grid, `revealedCount, `gameOver, `gameWon
      ensures Chording(g, grid[..], Pos(x, y), F', hit', dy, dx + 1) && HitAt(g, Pos(x, y), F', hit', m', G')
      ensures revealedCount == start + |F'| + if hit' then 1 else 0
      ensures ChordFlags(hit', gameWon, gameOver, start, revealedCount, F' != G')
    {
      hide Chording, Reveals, Clear, MineBeside, OpenSafe, FirstMine, IsFloodBefore;
      ghost var mid: Grid, c, n := grid[..], Pos(x, y), Pos(x + dx, y + dy);
      ChordClear(g, mid, c, F, hit, dy, dx);
      if !hit { JustHit(g, mid, c, F, dy, dx); }
      var nx, ny := x + dx, y + dy;
      ghost var flood := RevealHidden(nx, ny);
      F', hit' := F + flood, hit || (Open(mid, n) && At(mid, n).mine);
      m', G' := if hit then m else n, if hit then G else if hit' then F else F';
      ChordNext(g, mid, grid[..], c, F, hit, flood, dy, dx);
      ChordRoom(g, grid[..], c, F', hit', dy, dx + 1);
      Grown(F, flood, G);
    }

    /** Reveals a cell of the grid that is hidden. */
    method RevealHidden(nx: int, ny: int) returns (ghost F: set<Pos>)
      requires grid.Length == CELLS && Clear(grid[..])
      modifies grid, `revealedCount, `gameOver, `gameWon
      ensures RevealedAt(old(grid[..]), grid[..], Pos(nx, ny), F, old(revealedCount), revealedCount,
                         old(gameWon), gameWon, old(gameOver), gameOver)
    {
      F := {};
      if nx >= 0 && nx < GRID_SIZE && ny >= 0 && ny < GRID_SIZE && grid[GRID_SIZE * ny + nx].state == Hidden {
        F := RevealCell(nx, ny);
      }
    }

    /** The flag key: `toggle_flag`. */
    method ToggleFlag(x: int, y: int)
      requires Valid() && In(Pos(x, y))
      modifies grid, `flagCount
      ensures Valid()
      ensures var c, g: Grid := Pos(x, y), old(grid[..]);
              && grid[..] == g[Ix(c) := Toggled(At(g, c))]
              && flagCount == old(flagCount)
                              + match At(g, c).state case Hidden => 1 case Flagged => -1 case Revealed => 0
    {
      hide Consistent;
      ghost var g: Grid, c := grid[..], Pos(x, y);
      var i := GRID_SIZE * y + x;
      if grid[i].state == Hidden {
        grid[i] := grid[i].(state := Flagged);
        flagCount := flagCount + 1;
      } else if grid[i].state == Flagged {
        grid[i] := grid[i].(state := Hidden);
        flagCount := flagCount - 1;
      }
      ToggleConsistent(g, grid[..], c, revealedCount, old(flagCount), firstClick, gameWon, gameOver);
    }

    /** The number of mines around (x, y): the inner double loop of `place_mines`. */
    method CountAround(x: int, y: int) returns (count: nat)
      requires grid.Length == CELLS && In(Pos(x, y))
      ensures count == |MinesNear(grid[..], Pos(x, y))|
    {
      hide PassedIn;
      ghost var S, c := Mines(grid[..]), Pos(x, y);
      count := 0;
      NothingPassed(S, c);
      var dy := -1;
      while dy <= 1
        invariant -1 <= dy <= 2 && count == |PassedIn(S, c, dy, -1)|
      {
        var dx := -1;
        while dx <= 1
          invariant -1 <= dx <= 2 && count == |PassedIn(S, c, dy, dx)|
        {
          var nx, ny := x + dx, y + dy;
          PassOne(S, c, dy, dx);
          if nx >= 0 && nx < GRID_SIZE && ny >= 0 && ny < GRID_SIZE && grid[GRID_SIZE * ny + nx].mine {
            count := count + 1;
          }
          dx := dx + 1;
        }
        PassRow(S, c, dy);
        dy := dy + 1;
      }
      AllPassed(S, c);
    }

    /** The number of flags around (x, y): the first double loop of `chord_reveal`. */
    method FlagsAround(x: int, y: int) returns (count: nat)
      requires grid.Length == CELLS && In(Pos(x, y))
      ensures count == |FlagsNear(grid[..], Pos(x, y))|
    {
      hide PassedIn;
      ghost var S, c := WithState(grid[..], Flagged), Pos(x, y);
      count := 0;
      NothingPassed(S, c);
      var dy := -1;
      while dy <= 1
        invariant -1 <= dy <= 2 && count == |PassedIn(S, c, dy, -1)|
      {
        var dx := -1;
        while dx <= 1
          invariant -1 <= dx <= 2 && count == |PassedIn(S, c, dy, dx)|
        {
          var nx, ny := x + dx, y + dy;
          PassOne(S, c, dy, dx);
          if nx >= 0 && nx < GRID_SIZE && ny >= 0 && ny < GRID_SIZE && grid[GRID_SIZE * ny + nx].state == Flagged {
            count := count + 1;
          }
          dx := dx + 1;
        }
        PassRow(S, c, dy);
        dy := dy + 1;
      }
      AllPassed(S, c);
    }

    /** `place_mines`: forty mines, none of them beside or under the first click; then the counts. */
    method PlaceMines(excludeX: int, excludeY: int)
      requires grid.Length == CELLS && Mines(grid[..]) == {}
      modifies grid
      ensures |Mines(grid[..])| == MINE_COUNT && CountsRight(grid[..])
      ensures forall q :: q in Mines(grid[..]) ==> !Near(Pos(excludeX, excludeY), q)
      ensures forall p :: In(p) ==> At(grid[..], p).state == At(old(grid[..]), p).state
    {
      ghost var c := Pos(excludeX, excludeY);
      var placed := 0;
      while placed < MINE_COUNT
        invariant 0 <= placed <= MINE_COUNT && placed == |Mines(grid[..])|
        invariant forall q :: q in Mines(grid[..]) ==> !Near(c, q)
        invariant forall p :: In(p) ==> At(grid[..], p).state == At(old(grid[..]), p).state
      {
        PlaceMine(excludeX, excludeY);
        placed := placed + 1;
      }
      WriteCounts();
    }

    /** One mine on a cell that has none, away from the first click. */
    method PlaceMine(excludeX: int, excludeY: int)
      requires grid.Length == CELLS && |Mines(grid[..])| < MINE_COUNT
      requires forall q :: q in Mines(grid[..]) ==> !Near(Pos(excludeX, excludeY), q)
      modifies grid
      ensures |Mines(grid[..])| == |Mines(old(grid[..]))| + 1
      ensures forall q :: q in Mines(grid[..]) ==> !Near(Pos(excludeX, excludeY), q)
      ensures forall p :: In(p) ==> At(grid[..], p).state == At(old(grid[..]), p).state
    {
      hide Mines;
      ghost var g: Grid := grid[..];
      ghost var legal := LegalCellExists(g, Pos(excludeX, excludeY));
      var i: nat :| i < CELLS && !grid[i].mine
                    && !Near(Pos(excludeX, excludeY), Pos(i % GRID_SIZE, i / GRID_SIZE)) by {
        assert !grid[Ix(legal)].mine && Ix(legal) % GRID_SIZE == legal.x && Ix(legal) / GRID_SIZE == legal.y;
      }
      ghost var p := Pos(i % GRID_SIZE, i / GRID_SIZE);
      assert Ix(p) == i;
      grid[i] := grid[i].(mine := true);
      MinesOfUpdate(g, grid[..], p);
    }

    /** The counting pass of `place_mines`. */
    method WriteCounts()
      requires grid.Length == CELLS
      modifies grid
      ensures Mines(grid[..]) == Mines(old(grid[..])) && CountsRight(grid[..])
      ensures forall p :: In(p) ==> At(grid[..], p).state == At(old(grid[..]), p).state
    {
      ghost var g: Grid := grid[..];
      var y := 0;
      while y < GRID_SIZE
        invariant 0 <= y <= GRID_SIZE && CountedUpTo(g, grid[..], y, 0)
      {
        var x := 0;
        while x < GRID_SIZE
          invariant 0 <= x <= GRID_SIZE && CountedUpTo(g, grid[..], y, x)
        {
          var i := GRID_SIZE * y + x;
          ghost var mid: Grid := grid[..];
          SameMines(g, mid, y, x);
          if !grid[i].mine {
            var count := CountAround(x, y);
            grid[i] := grid[i].(adjacent := count);
          }
          CountOne(g, mid, grid[..], y, x);
          x := x + 1;
        }
        y := y + 1;
      }
      SameMines(g, grid[..], GRID_SIZE, 0);
    }

    /** Turns every mine face up. */
    method ShowMines()
      requires grid.Length == CELLS
      modifies grid
      ensures forall p :: In(p) ==>
                var was := At(old(grid[..]), p);
                At(grid[..], p) == if was.mine then was.(state := Revealed) else was
    {
      ghost var g: Grid := grid[..];
      var cy := 0;
      while cy < GRID_SIZE
        invariant 0 <= cy <= GRID_SIZE
        invariant forall p :: In(p) ==> (At(grid[..], p) == ShownUpTo(g, p, cy, 0))
      {
        var cx := 0;
        while cx < GRID_SIZE
          invariant 0 <= cx <= GRID_SIZE
          invariant forall p :: In(p) ==> (At(grid[..], p) == ShownUpTo(g, p, cy, cx))
        {
          var k := GRID_SIZE * cy + cx;
          assert At(grid[..], Pos(cx, cy)) == grid[k];
          if grid[k].mine {
            grid[k] := grid[k].(state := Revealed);
          }
          cx := cx + 1;
        }
        cy := cy + 1;
      }
    }

    /** `reveal_cell`. F is the set of cells it reveals, unless it hits a mine. */
    method RevealCell(x: int, y: int) returns (ghost F: set<Pos>)
      requires grid.Length == CELLS && Clear(grid[..])
      modifies grid, `revealedCount, `gameOver, `gameWon
      decreases Unopened(grid[..]), 0
      ensures RevealedAt(old(grid[..]), grid[..], Pos(x, y), F, old(revealedCount), revealedCount,
                         old(gameWon), gameWon, old(gameOver), gameOver)
    {
      F := {};
      ghost var g: Grid, c := grid[..], Pos(x, y);
      if x < 0 || x >= GRID_SIZE || y < 0 || y >= GRID_SIZE { return; }
      var i := GRID_SIZE * y + x;
      if grid[i].state != Hidden { return; }

      grid[i] := grid[i].(state := Revealed);
      revealedCount := revealedCount + 1;

      if grid[i].mine {
        gameOver := true;
        ShowMines();
        return;
      }

      F := {c};
      FloodStart(g, grid[..], c);
      if grid[i].adjacent == 0 {
        BeforeCall(g, grid[..], c, F, c);
        F := RevealNeighbours(x, y, g);
      }
      FloodDone(g, grid[..], c, F);
      if revealedCount == CELLS - MINE_COUNT {
        gameWon := true;
        gameOver := true;
      }
    }

    /** `reveal_cell(x + dx, y + dy)` inside the double loop. */
    method Visit(x: int, y: int, dx: int, dy: int, ghost g: Grid, ghost F: set<Pos>) returns (ghost F': set<Pos>)
      requires grid.Length == CELLS && Clear(g) && In(Pos(x, y)) && Zero(g, Pos(x, y))
      requires -1 <= dx <= 1 && -1 <= dy <= 1
      requires Revealing(g, grid[..], Pos(x, y), F, dy, dx)
      modifies grid, `revealedCount, `gameOver, `gameWon
      decreases Unopened(grid[..]), 1
      ensures Revealing(g, grid[..], Pos(x, y), F', dy, dx + 1)
      ensures Unopened(grid[..]) <= Unopened(old(grid[..]))
      ensures revealedCount - |F'| == old(revealedCount) - |F|
      ensures FlagsRaised(old(gameWon), gameWon, old(gameOver), gameOver, old(revealedCount), revealedCount)
    {
      hide Marked, IsFlood, Flooding, Clear, OpenSafe, Unopened, Exploded;
      ghost var mid: Grid, c, n := grid[..], Pos(x, y), Pos(x + dx, y + dy);
      BeforeCall(g, mid, c, F, n);
      ghost var G := RevealCell(x + dx, y + dy);
      F' := F + G;
      VisitDone(g, mid, grid[..], c, F, G, dy, dx);
    }

    /** The double loop of `reveal_cell` around a zero cell. */
    method RevealNeighbours(x: int, y: int, ghost g: Grid) returns (ghost F: set<Pos>)
      requires grid.Length == CELLS && Clear(g) && In(Pos(x, y)) && Zero(g, Pos(x, y))
      requires Flooding(g, grid[..], Pos(x, y), {Pos(x, y)})
      modifies grid, `revealedCount, `gameOver, `gameWon
      decreases Unopened(grid[..]), 2
      ensures Flooding(g, grid[..], Pos(x, y), F) && forall q :: Near(Pos(x, y), q) ==> !Open(grid[..], q)
      ensures revealedCount - |F| == old(revealedCount) - 1
      ensures FlagsRaised(old(gameWon), gameWon, old(gameOver), gameOver, old(revealedCount), revealedCount)
    {
      ghost var c, before: Grid := Pos(x, y), grid[..];
      F := {c};
      var dy := -1;
      while dy <= 1
        invariant -1 <= dy <= 2 && Revealing(g, grid[..], c, F, dy, -1)
        invariant revealedCount - |F| == old(revealedCount) - 1 && Unopened(grid[..]) <= Unopened(before)
        invariant FlagsRaised(old(gameWon), gameWon, old(gameOver), gameOver, old(revealedCount), revealedCount)
      {
        var dx := -1;
        while dx <= 1
          invariant -1 <= dx <= 2 && Revealing(g, grid[..], c, F, dy, dx)
          invariant revealedCount - |F| == old(revealedCount) - 1 && Unopened(grid[..]) <= Unopened(before)
          invariant FlagsRaised(old(gameWon), gameWon, old(gameOver), gameOver, old(revealedCount), revealedCount)
        {
          F := Visit(x, y, dx, dy, g, F);
          dx := dx + 1;
        }
        RevealingRow(g, grid[..], c, F, dy);
        dy := dy + 1;
      }
    }
  }

  /** A run that loses on the first cell it opens: the first reveal is on a flag, so it only places the mines; no
      cell is open then, and the next reveal is on the mine at c. */
  method FlagThenMine() returns (game: Game, ghost opening: Grid, ghost placed: Grid, c: Pos)
    ensures fresh(game) && fresh(game.grid)
    ensures forall p :: In(p) ==> At(opening, p) == Cell(false, 0, if p == Pos(0, 0) then Flagged else Hidden)
    ensures MinesPlaced(opening, placed, Pos(0, 0)) && Open(placed, c) && At(placed, c).mine
    ensures game.grid.Length == CELLS && Exploded(placed, game.grid[..], c)
    ensures game.gameOver && !game.gameWon && game.revealedCount == 1
  {
    hide Consistent, MinesPlaced, Exploded, IsFlood, Marked;
    game := new Game();
    game.ToggleFlag(0, 0);
    opening := game.grid[..];
    ghost var F;
    placed, F := game.RevealKey(0, 0);
    FirstPlaced(opening, placed, Pos(0, 0), game.revealedCount, game.flagCount, game.gameWon, game.gameOver);
    var i: nat :| i < CELLS && game.grid[i].mine && game.grid[i].state == Hidden;
    CellAt(game.grid[..], i);
    c := Pos(i % GRID_SIZE, i / GRID_SIZE);
    ghost var start;
    start, F := game.RevealKey(i % GRID_SIZE, i / GRID_SIZE);
  }
}

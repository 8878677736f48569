/** A position of Minesweeper from which one chord loses and wins the game. */
module ChordWitness {
  import opened Minefield
  import opened Minesweeper

  const CORNER: Pos := Pos(0, 0)
  const MINE: Pos := Pos(1, 0)
  const FLAG: Pos := Pos(0, 1)
  const LAST: Pos := Pos(1, 1)

  /** Mines beside the corner and on the last 39 cells; a wrong flag below the corner; every safe cell but the
      flagged one and the one diagonal to the corner revealed. */
  ghost predicate IsPosition(g: Grid) {
    && (forall p :: In(p) ==> (At(g, p).mine <==> p == MINE || Ix(p) >= 217))
    && (forall p :: In(p) ==> At(g, p).state == if p == FLAG then Flagged
                                                else if p == LAST || At(g, p).mine then Hidden else Revealed)
    && CountsRight(g)
  }

  /** There is such a grid. */
  lemma PositionExists() returns (g: Grid)
    ensures IsPosition(g)
  {
    hide MinesNear, CellOf;
    var plain: Grid := seq(CELLS, k requires 0 <= k < CELLS => CellOf(Pos(k % GRID_SIZE, k / GRID_SIZE)));
    g := seq(CELLS, k requires 0 <= k < CELLS =>
      plain[k].(adjacent := |MinesNear(plain, Pos(k % GRID_SIZE, k / GRID_SIZE))|));
    forall p | In(p) ensures At(g, p) == CellOf(p).(adjacent := |MinesNear(plain, p)|) && At(plain, p) == CellOf(p) {
      assert Ix(p) % GRID_SIZE == p.x && Ix(p) / GRID_SIZE == p.y;
    }
    Counted(plain, g);
  }

  lemma Counted(plain: Grid, g: Grid)
    requires forall p :: In(p) ==> At(plain, p) == CellOf(p)
    requires forall p :: In(p) ==> At(g, p) == CellOf(p).(adjacent := |MinesNear(plain, p)|)
    ensures IsPosition(g)
  {
    hide AllCells;
    assert Mines(g) == Mines(plain);
    forall p ensures MinesNear(g, p) == MinesNear(plain, p) {}
  }

  function CellOf(p: Pos): Cell
    requires In(p)
  {
    var mine := p == MINE || Ix(p) >= 217;
    Cell(mine, 0, if p == FLAG then Flagged else if p == LAST || mine then Hidden else Revealed)
  }

  lemma MinesSize(g: Grid, n: nat)
    requires IsPosition(g) && n == 217
    ensures |Mines(g)| == CELLS - n + 1
  {
    hide CountsRight, CellsBelow, AllCells;
    var all, low, mines := AllCells(g), CellsBelow(n), Mines(g);
    forall p ensures p in mines <==> p in all - low || p == MINE {
      if In(p) { assert At(g, p).mine <==> p == MINE || Ix(p) >= 217; }
    }
    assert MINE in low && mines == (all - low) + {MINE};
    assert all == (all - low) + low;
  }

  /** It keeps the invariant: 214 cells are revealed, one is flagged, and the game goes on. */
  lemma PositionIsConsistent(g: Grid, n: nat)
    requires IsPosition(g) && n == 217
    ensures Consistent(g, 214, 1, false, false, false)
  {
    MinesSize(g, n);
    SafeSize(g);
    PositionStates(g);
    hide CountsRight, IsPosition;
    assert |{FLAG, LAST}| == 2;
    assert FLAG in Safe(g) && FLAG !in WithState(g, Revealed);
  }

  lemma PositionStates(g: Grid)
    requires IsPosition(g)
    ensures WithState(g, Flagged) == {FLAG} && Mines(g) !! WithState(g, Revealed)
    ensures Safe(g) == WithState(g, Revealed) + {FLAG, LAST} && WithState(g, Revealed) !! {FLAG, LAST}
  {
    hide CountsRight, AllCells;
    forall p ensures p in WithState(g, Flagged) <==> p == FLAG {}
    forall p ensures p in Safe(g) <==> p in WithState(g, Revealed) || p in {FLAG, LAST} {}
  }

  /** The chord at the corner opens the one cell, and so ends the count at 216. */
  lemma ChordOpens(g: Grid, F: set<Pos>, m: Pos, G: set<Pos>)
    requires IsPosition(g) && IsFloodAround(g, CORNER, F) && FirstMine(g, CORNER, m) && IsFloodBefore(g, CORNER, m, G)
    ensures F == {LAST} && OpensLater(g, CORNER, G)
  {
    NotZero(g);
    assert Closed(g, {LAST}) && HasNeighbours(g, CORNER, {LAST});
    assert m == MINE;
    assert Closed(g, {}) && HasPassed(g, CORNER, {}, 0, 1);
    assert Near(CORNER, LAST) && Open(g, LAST) && !At(g, LAST).mine;
  }

  lemma NotZero(g: Grid)
    requires IsPosition(g)
    ensures !Zero(g, LAST)
  {
    assert MINE in MinesNear(g, LAST) && LAST in Safe(g);
  }

  /** The corner is revealed, a mine is hidden beside it, and the flags around it match its count. */
  lemma ChordMatches(g: Grid)
    requires IsPosition(g)
    ensures At(g, CORNER).state == Revealed && MineBeside(g, CORNER)
    ensures |FlagsNear(g, CORNER)| == At(g, CORNER).adjacent
  {
    assert FlagsNear(g, CORNER) == {FLAG} && MinesNear(g, CORNER) == {MINE};
    assert CORNER in Safe(g);
    assert Near(CORNER, MINE) && Open(g, MINE) && At(g, MINE).mine;
  }

  /** One key, and the game is lost and won. */
  method LostAndWon(game: Game)
    requires game.Valid() && IsPosition(game.grid[..]) && !game.firstClick
    modifies game, game.grid
    ensures game.gameOver && game.gameWon && game.revealedCount == CELLS - MINE_COUNT
  {
    ghost var g: Grid := game.grid[..];
    CountsOf(g, game.revealedCount, game.flagCount, game.gameWon, game.gameOver, 217);
    ChordMatches(g);
    hide Consistent, IsPosition, IsFloodAround, FirstMine, IsFloodBefore, MineBeside;
    ghost var F, m, G := game.ChordReveal(0, 0);
    ChordOpens(g, F, m, G);
  }

  lemma CountsOf(g: Grid, revealed: int, flags: int, won: bool, over: bool, n: nat)
    requires IsPosition(g) && Consistent(g, revealed, flags, false, won, over) && n == 217
    ensures revealed == 214 && !over
  {
    PositionIsConsistent(g, n);
  }
}

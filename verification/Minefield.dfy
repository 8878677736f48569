/** The minesweeper grid: mine counts, floods, and what the bookkeeping of a game means. */
module Minefield {
  import opened Sets

  const GRID_SIZE: nat := 16
  const MINE_COUNT: nat := 40
  const CELLS: nat := GRID_SIZE * GRID_SIZE

  datatype CellState = Hidden | Revealed | Flagged
  datatype Cell = Cell(mine: bool, adjacent: nat, state: CellState)
  datatype Pos = Pos(x: int, y: int)

  /** The grid, row after row, as the C array lies in memory. */
  type Grid = g: seq<Cell> | |g| == CELLS witness seq(CELLS, i => Cell(false, 0, Hidden))

  predicate In(p: Pos) { 0 <= p.x < GRID_SIZE && 0 <= p.y < GRID_SIZE }

  function Ix(p: Pos): nat
    requires In(p)
  {
    GRID_SIZE * p.y + p.x
  }

  function At(g: Grid, p: Pos): Cell
    requires In(p)
  {
    g[Ix(p)]
  }

  predicate Near(p: Pos, q: Pos) { -1 <= q.x - p.x <= 1 && -1 <= q.y - p.y <= 1 }

  // ---------- cells and their number ----------

  /** Cell number k. */
  lemma CellNumbered(k: nat)
    requires k < CELLS
    ensures forall p :: In(p) && Ix(p) == k <==> p == Pos(k % GRID_SIZE, k / GRID_SIZE)
  {
    forall p | In(p) && Ix(p) == k ensures p.x == k % GRID_SIZE && p.y == k / GRID_SIZE {
      assert k == 16 * p.y + p.x;
    }
  }

  /** The first k cells, row by row. */
  ghost function CellsBelow(k: nat): (s: set<Pos>)
    requires k <= CELLS
    ensures forall p :: p in s <==> In(p) && Ix(p) < k
    ensures |s| == k
  {
    if k == 0 then {}
    else
      CellNumbered(k - 1);
      CellsBelow(k - 1) + {Pos((k - 1) % GRID_SIZE, (k - 1) / GRID_SIZE)}
  }

  /** All positions of the grid. */
  ghost function AllCells(g: Grid): (s: set<Pos>)
    ensures forall p :: p in s <==> In(p)
    ensures |s| == CELLS
  {
    CellsBelow(|g|)
  }

  ghost function Mines(g: Grid): set<Pos> { set p | p in AllCells(g) && At(g, p).mine }
  ghost function Safe(g: Grid): set<Pos> { set p | p in AllCells(g) && !At(g, p).mine }
  ghost function WithState(g: Grid, s: CellState): set<Pos> { set p | p in AllCells(g) && At(g, p).state == s }

  /** The hidden cells, of which every reveal leaves fewer, and the safe ones among them. */
  ghost function Unopened(g: Grid): set<Pos> { WithState(g, Hidden) }
  ghost function OpenSafe(g: Grid): set<Pos> { set p | p in AllCells(g) && Open(g, p) && !At(g, p).mine }

  // ---------- mine counts ----------

  ghost function MinesNear(g: Grid, p: Pos): set<Pos> { set q | q in Mines(g) && Near(p, q) }

  ghost function FlagsNear(g: Grid, p: Pos): set<Pos> { set q | q in WithState(g, Flagged) && Near(p, q) }

  /** Every safe cell shows the number of mines around it. */
  ghost predicate CountsRight(g: Grid) {
    forall p :: p in Safe(g) ==> At(g, p).adjacent == |MinesNear(g, p)|
  }

  predicate Zero(g: Grid, p: Pos)
    requires In(p)
  {
    !At(g, p).mine && At(g, p).adjacent == 0
  }

  /** A zero cell has no mine beside it. */
  ghost predicate Clear(g: Grid) {
    forall p, q {:trigger Zero(g, p), Near(p, q)} :: In(p) && In(q) && Zero(g, p) && Near(p, q) ==> !At(g, q).mine
  }

  lemma CountsClear(g: Grid)
    requires CountsRight(g)
    ensures Clear(g)
  {
    forall p, q | In(p) && In(q) && Zero(g, p) && Near(p, q) ensures !At(g, q).mine {
      assert p in Safe(g);
      assert q in Mines(g) ==> q in MinesNear(g, p);
    }
  }

  // ---------- the flood ----------

  predicate Open(g: Grid, p: Pos) { In(p) && At(g, p).state == Hidden }

  /** S contains every hidden neighbour of each of its zero cells. */
  ghost predicate Closed(g: Grid, S: set<Pos>) {
    forall p, q {:trigger Zero(g, p), Near(p, q)} ::
      p in S && In(p) && Zero(g, p) && Near(p, q) && Open(g, q) ==> q in S
  }

  /** F is the least closed set that contains c; it consists of hidden cells. */
  ghost predicate IsFlood(g: Grid, c: Pos, F: set<Pos>) {
    && c in F && Closed(g, F)
    && (forall p :: p in F ==> Open(g, p))
    && (forall S: set<Pos> {:trigger Closed(g, S)} :: c in S && Closed(g, S) ==> F <= S)
  }

  /** S contains every hidden neighbour of c that is no mine. */
  ghost predicate HasNeighbours(g: Grid, c: Pos, S: set<Pos>) {
    forall n :: Near(c, n) && Open(g, n) && !At(g, n).mine ==> n in S
  }

  /** A hidden mine lies beside c. */
  ghost predicate MineBeside(g: Grid, c: Pos) {
    exists q :: Near(c, q) && Open(g, q) && At(g, q).mine
  }

  /** F is the least closed set that contains every hidden neighbour of c that is no mine; it is safe. */
  ghost predicate IsFloodAround(g: Grid, c: Pos, F: set<Pos>) {
    HasNeighbours(g, c, F) && Around(g, c, F)
  }

  /** F is closed, safe, and lies in every closed set that contains the safe neighbours of c. */
  ghost predicate Around(g: Grid, c: Pos, F: set<Pos>) {
    && Closed(g, F) && F <= OpenSafe(g)
    && (forall S: set<Pos> {:trigger Closed(g, S)} :: Closed(g, S) && HasNeighbours(g, c, S) ==> F <= S)
  }

  /** The first hidden mine beside c in the order of the double loop. */
  ghost predicate FirstMine(g: Grid, c: Pos, m: Pos) {
    && Near(c, m) && Open(g, m) && At(g, m).mine
    && forall q :: Passed(c, q, m.y - c.y, m.x - c.x) && Open(g, q) ==> !At(g, q).mine
  }

  /** S contains the hidden neighbours of c that are no mines and come before place (dy, dx) of the loop. */
  ghost predicate HasPassed(g: Grid, c: Pos, S: set<Pos>, dy: int, dx: int) {
    forall n :: Passed(c, n, dy, dx) && Open(g, n) && !At(g, n).mine ==> n in S
  }

  /** F is closed, safe, and lies in every closed set that contains those neighbours. */
  ghost predicate AroundPassed(g: Grid, c: Pos, F: set<Pos>, dy: int, dx: int) {
    && Closed(g, F) && F <= OpenSafe(g)
    && (forall S: set<Pos> {:trigger Closed(g, S)} :: Closed(g, S) && HasPassed(g, c, S, dy, dx) ==> F <= S)
  }

  /** G is what a chord at c opens before it hits the mine m. */
  ghost predicate IsFloodBefore(g: Grid, c: Pos, m: Pos, G: set<Pos>) {
    HasPassed(g, c, G, m.y - c.y, m.x - c.x) && AroundPassed(g, c, G, m.y - c.y, m.x - c.x)
  }

  /** A safe neighbour of c is opened after the mine. */
  ghost predicate OpensLater(g: Grid, c: Pos, G: set<Pos>) {
    exists n :: Near(c, n) && Open(g, n) && !At(g, n).mine && n !in G
  }

  /** So it is exactly when the chord opens more than before the mine. */
  lemma LaterOpened(g: Grid, c: Pos, F: set<Pos>, m: Pos, G: set<Pos>)
    requires IsFloodAround(g, c, F) && IsFloodBefore(g, c, m, G)
    ensures G <= F && (F != G <==> OpensLater(g, c, G))
  {
    assert HasPassed(g, c, F, m.y - c.y, m.x - c.x);
    if !OpensLater(g, c, G) { assert HasNeighbours(g, c, G); }
  }

  /** With a hidden mine beside a cell whose flags match its count, one of the flags is on a safe cell: so at
      most 214 safe cells can be opened besides it, and the count, the mine included, ends at 216 at most. */
  lemma WrongFlag(g: Grid, c: Pos)
    requires Mines(g) !! WithState(g, Revealed) && |Mines(g)| == MINE_COUNT && CountsRight(g)
    requires In(c) && At(g, c).state == Revealed && |FlagsNear(g, c)| == At(g, c).adjacent && MineBeside(g, c)
    ensures |WithState(g, Revealed)| + |OpenSafe(g)| < CELLS - MINE_COUNT
  {
    hide CountsRight;
    var flags, mines := FlagsNear(g, c), MinesNear(g, c);
    RevealedCount(g, c);
    var q :| Near(c, q) && Open(g, q) && At(g, q).mine;
    assert q in mines && q !in flags;
    if flags <= mines { SubsetSize(flags, mines); }
    var f :| f in flags && f !in mines;
    SafeSize(g);
    RevealedSafe(g);
    var others := WithState(g, Revealed) + OpenSafe(g);
    assert f in Safe(g) && f !in others;
    SubsetSize(others + {f}, Safe(g));
  }

  lemma RevealedCount(g: Grid, c: Pos)
    requires Mines(g) !! WithState(g, Revealed) && CountsRight(g) && In(c) && At(g, c).state == Revealed
    ensures At(g, c).adjacent == |MinesNear(g, c)|
  {
    RevealedSafe(g);
    assert c in WithState(g, Revealed);
  }

  lemma FloodUnique(g: Grid, c: Pos, F: set<Pos>, G: set<Pos>)
    requires IsFlood(g, c, F) && IsFlood(g, c, G)
    ensures F == G
  {}

  /** A flood that starts on a safe cell stays on safe cells. */
  lemma FloodSafe(g: Grid, c: Pos, F: set<Pos>)
    requires Clear(g) && IsFlood(g, c, F) && !At(g, c).mine
    ensures F <= OpenSafe(g)
  {
    var S := OpenSafe(g);
    forall p, q | p in S && In(p) && Zero(g, p) && Near(p, q) && Open(g, q) ensures q in S {
      assert q in AllCells(g);
    }
    assert c in S && Closed(g, S);
  }

  /** `now` is `g` with the cells of F revealed. */
  ghost predicate Marked(g: Grid, now: Grid, F: set<Pos>) {
    forall p :: In(p) ==> At(now, p) == if p in F then At(g, p).(state := Revealed) else At(g, p)
  }

  /** In the middle of revealing from c: F is revealed, every zero cell of F except c is done, and
      F lies in every closed set around c. */
  ghost predicate Flooding(g: Grid, now: Grid, c: Pos, F: set<Pos>) {
    && Marked(g, now, F) && c in F && F <= OpenSafe(g)
    && (forall p, q {:trigger Zero(g, p), Near(p, q)} ::
          p in F && p != c && In(p) && Zero(g, p) && Near(p, q) && Open(g, q) ==> q in F)
    && (forall S: set<Pos> {:trigger Closed(g, S)} :: c in S && Closed(g, S) ==> F <= S)
  }

  /** A reveal at c: the flood F of c if c is hidden and no mine, every mine if it is one, else nothing. */
  ghost predicate Reveals(g: Grid, now: Grid, c: Pos, F: set<Pos>) {
    if !Open(g, c) then now == g && F == {}
    else if At(g, c).mine then Exploded(g, now, c) && F == {}
    else IsFlood(g, c, F) && Marked(g, now, F)
  }

  /** `now` is g with the cells of F revealed and, after a hit, every mine. */
  ghost predicate Shown(g: Grid, now: Grid, F: set<Pos>, hit: bool) {
    forall p :: In(p) ==>
      At(now, p) == if p in F || (hit && At(g, p).mine) then At(g, p).(state := Revealed) else At(g, p)
  }

  lemma ShownOpen(g: Grid, now: Grid, F: set<Pos>, hit: bool)
    requires Shown(g, now, F, hit)
    ensures forall p :: Open(now, p) <==> Open(g, p) && p !in F && !(hit && At(g, p).mine)
    ensures forall p :: In(p) ==> Zero(now, p) == Zero(g, p) && At(now, p).mine == At(g, p).mine
    ensures Clear(g) ==> Clear(now)
  {
    forall p | In(p)
      ensures At(now, p) == if p in F || (hit && At(g, p).mine) then At(g, p).(state := Revealed) else At(g, p)
    {}
  }

  lemma MarkedOpen(g: Grid, now: Grid, F: set<Pos>)
    requires Marked(g, now, F)
    ensures forall p :: Open(now, p) <==> Open(g, p) && p !in F
    ensures forall p :: In(p) ==> Zero(now, p) == Zero(g, p) && At(now, p).mine == At(g, p).mine
    ensures OpenSafe(now) == OpenSafe(g) - F && Mines(now) == Mines(g)
    ensures Clear(g) ==> Clear(now)
  {
    forall p ensures Open(now, p) <==> Open(g, p) && p !in F {
      if In(p) { assert At(now, p) == if p in F then At(g, p).(state := Revealed) else At(g, p); }
    }
    assert forall p :: p in OpenSafe(now) <==> p in OpenSafe(g) - F;
    assert forall p :: p in Mines(now) <==> p in Mines(g);
  }

  lemma MarkedTwice(g: Grid, mid: Grid, now: Grid, F: set<Pos>, G: set<Pos>)
    requires Marked(g, mid, F) && Marked(mid, now, G)
    ensures Marked(g, now, F + G)
  {
    forall p | In(p) ensures At(now, p) == if p in F + G then At(g, p).(state := Revealed) else At(g, p) {
      assert At(mid, p) == if p in F then At(g, p).(state := Revealed) else At(g, p);
    }
  }

  /** One more neighbour of c revealed, with the flood it starts. */
  lemma FloodStep(g: Grid, mid: Grid, now: Grid, c: Pos, F: set<Pos>, n: Pos, G: set<Pos>)
    requires Clear(g) && Flooding(g, mid, c, F) && Zero(g, c)
    requires Near(c, n) && Open(mid, n) && IsFlood(mid, n, G) && Marked(mid, now, G)
    ensures Flooding(g, now, c, F + G)
    ensures F !! G
  {
    MarkedOpen(g, mid, F);
    MarkedTwice(g, mid, now, F, G);
    FloodSafe(mid, n, G);
    forall S: set<Pos> | c in S && Closed(g, S) ensures F + G <= S {
      assert n in S;
      assert Closed(mid, S);
    }
    forall p, q | p in F + G && p != c && In(p) && Zero(g, p) && Near(p, q) && Open(g, q) ensures q in F + G {
      if p !in F && q !in F { assert Open(mid, q); }
    }
  }

  /** All neighbours visited: the flood is complete. */
  lemma FloodDone(g: Grid, now: Grid, c: Pos, F: set<Pos>)
    requires Flooding(g, now, c, F)
    requires Zero(g, c) ==> forall q :: Near(c, q) ==> !Open(now, q)
    ensures IsFlood(g, c, F)
  {
    MarkedOpen(g, now, F);
    forall p | p in F ensures Open(g, p) { assert p in OpenSafe(g); }
    forall p, q | p in F && In(p) && Zero(g, p) && Near(p, q) && Open(g, q) ensures q in F {
      if p == c { assert !Open(now, q); }
    }
  }

  lemma MarkedUnopened(g: Grid, now: Grid, F: set<Pos>, c: Pos)
    requires Marked(g, now, F) && c in F && Open(g, c)
    ensures Unopened(now) < Unopened(g)
  {
    MarkedOpen(g, now, F);
    assert forall p :: p in Unopened(now) ==> Open(now, p);
    assert c in Unopened(g) && !Open(now, c);
  }

  /** c was a mine: it and every other mine are face up. */
  ghost predicate Exploded(g: Grid, now: Grid, c: Pos) {
    forall p :: In(p) ==> At(now, p) == if p == c || At(g, p).mine then At(g, p).(state := Revealed) else At(g, p)
  }

  /** Neighbours of c that the double loop has passed when it is about to visit (dy, dx). */
  predicate Passed(c: Pos, q: Pos, dy: int, dx: int) {
    Near(c, q) && (q.y - c.y < dy || (q.y - c.y == dy && q.x - c.x < dx))
  }

  /** Those of them that belong to S. */
  ghost function PassedIn(S: set<Pos>, c: Pos, dy: int, dx: int): set<Pos> {
    set q | q in S && Passed(c, q, dy, dx)
  }

  /** The bookkeeping of a game that is not lost. */
  ghost predicate Consistent(g: Grid, revealedCount: int, flagCount: int, firstClick: bool, won: bool, over: bool) {
    && Mines(g) !! WithState(g, Revealed)
    && revealedCount == |WithState(g, Revealed)|
    && flagCount == |WithState(g, Flagged)|
    && (if firstClick then Mines(g) == {} && revealedCount == 0 && (forall p :: In(p) ==> At(g, p).adjacent == 0)
        else |Mines(g)| == MINE_COUNT && CountsRight(g))
    && (won <==> !firstClick && Safe(g) <= WithState(g, Revealed))
    && over == won
  }

  lemma SafeSize(g: Grid)
    requires |Mines(g)| == MINE_COUNT
    ensures |Safe(g)| == CELLS - MINE_COUNT
  {
    assert AllCells(g) == Safe(g) + Mines(g);
    assert Safe(g) !! Mines(g);
  }

  /** Counting tells whether every safe cell is revealed. */
  lemma CountDecides(g: Grid)
    requires Mines(g) !! WithState(g, Revealed) && |Mines(g)| == MINE_COUNT
    ensures |WithState(g, Revealed)| + |OpenSafe(g)| <= CELLS - MINE_COUNT
    ensures |WithState(g, Revealed)| == CELLS - MINE_COUNT <==> Safe(g) <= WithState(g, Revealed)
  {
    SafeSize(g);
    var r, o := WithState(g, Revealed), OpenSafe(g);
    RevealedSafe(g);
    SubsetSize(r, Safe(g));
    SubsetSize(r + o, Safe(g));
    if Safe(g) <= r { assert r == Safe(g); }
  }

  lemma RevealedSafe(g: Grid)
    requires Mines(g) !! WithState(g, Revealed)
    ensures WithState(g, Revealed) <= Safe(g) && OpenSafe(g) <= Safe(g) && WithState(g, Revealed) !! OpenSafe(g)
  {
    forall p | p in WithState(g, Revealed) ensures p in Safe(g) { assert p !in Mines(g); }
  }

  /** A mine can always be placed: fewer than 256 - 9 cells are taken. */
  lemma LegalCellExists(g: Grid, c: Pos) returns (p: Pos)
    requires |Mines(g)| < MINE_COUNT
    ensures In(p) && !At(g, p).mine && !Near(c, p)
  {
    var around := seq(9, i => Pos(c.x + i % 3 - 1, c.y + i / 3 - 1));
    ElementsSize(around);
    var near := set q | q in around;
    DifferenceSize(AllCells(g), Mines(g));
    DifferenceSize(AllCells(g) - Mines(g), near);
    forall q | Near(c, q) ensures q in near {
      var k := 3 * (q.y - c.y + 1) + (q.x - c.x + 1);
      assert k % 3 == q.x - c.x + 1 && k / 3 == q.y - c.y + 1;
      assert q == around[k];
    }
    p :| p in AllCells(g) - Mines(g) - near;
  }

  lemma MinesOfUpdate(g: Grid, now: Grid, p: Pos)
    requires In(p) && now == g[Ix(p) := g[Ix(p)].(mine := true)]
    ensures Mines(now) == Mines(g) + {p}
    ensures !At(g, p).mine ==> p !in Mines(g) && |Mines(now)| == |Mines(g)| + 1
  {
    forall q | In(q) ensures At(now, q).mine == (At(g, q).mine || q == p) {}
  }

  /** Cell p after the mines before (cx, cy), row by row, have been turned up. */
  ghost function ShownUpTo(g: Grid, p: Pos, cy: int, cx: int): Cell
    requires In(p)
  {
    if At(g, p).mine && (p.y < cy || (p.y == cy && p.x < cx)) then At(g, p).(state := Revealed) else At(g, p)
  }

  /** A flag that is only ever raised while the count goes up: not before every safe cell could have been
      revealed, and surely when the count ends there. */
  predicate Raised(before: bool, now: bool, start: int, end: int) {
    && start <= end
    && (before ==> now)
    && (now ==> before || (start < end && end >= CELLS - MINE_COUNT))
    && (start < end == CELLS - MINE_COUNT ==> now)
  }

  predicate FlagsRaised(won: bool, won': bool, over: bool, over': bool, start: int, end: int) {
    Raised(won, won', start, end) && Raised(over, over', start, end)
  }

  /** A reveal at c with what it does to the counter and the flags. */
  ghost predicate RevealedAt(g: Grid, now: Grid, c: Pos, F: set<Pos>, start: int, end: int,
                             won: bool, won': bool, over: bool, over': bool) {
    && Reveals(g, now, c, F)
    && (if Open(g, c) && At(g, c).mine then end == start + 1 && over' && won' == won
        else end == start + |F| && FlagsRaised(won, won', over, over', start, end))
  }

  /** Placing mines leaves the states, so also the sets of revealed and flagged cells. */
  lemma StatesKept(g: Grid, now: Grid)
    requires forall p :: In(p) ==> At(now, p).state == At(g, p).state
    ensures forall s :: WithState(now, s) == WithState(g, s)
  {}

  /** No mine lies under the first click, nor beside it. */
  lemma FirstClickSafe(g: Grid, c: Pos)
    requires In(c) && forall q :: q in Mines(g) ==> !Near(c, q)
    ensures !At(g, c).mine && forall q :: In(q) && Near(c, q) ==> !At(g, q).mine
  {
    forall q | In(q) && Near(c, q) ensures !At(g, q).mine { assert q !in Mines(g); }
  }

  /** `now` is g with forty mines and the counts they cause, none of them beside or under the first click. */
  ghost predicate MinesPlaced(g: Grid, now: Grid, c: Pos) {
    && |Mines(now)| == MINE_COUNT && CountsRight(now)
    && (forall q :: q in Mines(now) ==> !Near(c, q))
    && (forall p :: In(p) ==> At(now, p).state == At(g, p).state)
  }

  /** With fewer than forty flags a hidden mine is left. */
  lemma MineLeft(g: Grid, revealed: int, flags: int, won: bool, over: bool)
    requires Consistent(g, revealed, flags, false, won, over) && flags < MINE_COUNT
    ensures exists i: nat :: i < CELLS && g[i].mine && g[i].state == Hidden
  {
    hide CountsRight, Safe;
    var q := UnflaggedMine(g);
    assert q !in WithState(g, Revealed);
    assert g[Ix(q)] == At(g, q);
  }

  /** A first reveal that opened nothing leaves no cell revealed and a hidden mine. */
  lemma FirstPlaced(opening: Grid, placed: Grid, c: Pos, revealed: int, flags: int, won: bool, over: bool)
    requires MinesPlaced(opening, placed, c) && flags < MINE_COUNT
    requires Consistent(placed, revealed, flags, false, won, over)
    requires forall p :: In(p) ==> At(opening, p).state != Revealed
    ensures revealed == 0 && !over
    ensures exists i: nat :: i < CELLS && placed[i].mine && placed[i].state == Hidden
  {
    hide CountsRight, Safe;
    assert WithState(placed, Revealed) == {};
    ReadyToReveal(placed, revealed, flags, won, over);
    MineLeft(placed, revealed, flags, won, over);
  }

  lemma UnflaggedMine(g: Grid) returns (q: Pos)
    requires |WithState(g, Flagged)| < |Mines(g)|
    ensures q in Mines(g) && q !in WithState(g, Flagged)
  {
    hide Mines, WithState;
    DifferenceSize(Mines(g), WithState(g, Flagged));
    assert Mines(g) - WithState(g, Flagged) != {};
    q :| q in Mines(g) - WithState(g, Flagged);
  }

  lemma CellAt(g: Grid, i: nat)
    requires i < CELLS
    ensures var c := Pos(i % GRID_SIZE, i / GRID_SIZE); In(c) && At(g, c) == g[i]
  {
    CellNumbered(i);
  }

  /** The first reveal opens its cell, which is safe, exactly when it is not on a flag. On a flag it opens
      nothing, and with fewer than forty flags the next cell to be opened can be a mine. */
  lemma FirstOpened(g: Grid, start: Grid, c: Pos, revealed: int, flags: int, won: bool, over: bool)
    requires Consistent(g, revealed, flags, true, won, over) && In(c) && MinesPlaced(g, start, c)
    ensures !At(start, c).mine && (Open(start, c) <==> At(g, c).state != Flagged)
    ensures flags < MINE_COUNT ==> exists i: nat :: i < CELLS && start[i].mine && start[i].state == Hidden
  {
    hide CountsRight;
    FirstClickSafe(start, c);
    assert c in WithState(g, Revealed) <==> At(g, c).state == Revealed;
    StartConsistent(g, start, revealed, flags, won, over);
    if flags < MINE_COUNT { MineLeft(start, revealed, flags, won, over); }
  }

  /** What a flood does to the sets that are counted. */
  lemma RevealKeeps(g: Grid, now: Grid, F: set<Pos>)
    requires F <= OpenSafe(g) && Marked(g, now, F)
    ensures WithState(now, Revealed) == WithState(g, Revealed) + F && WithState(g, Revealed) !! F
    ensures |WithState(now, Revealed)| == |WithState(g, Revealed)| + |F|
    ensures WithState(now, Flagged) == WithState(g, Flagged) && Mines(now) == Mines(g) && Safe(now) == Safe(g)
    ensures F !! Mines(g)
    ensures CountsRight(g) ==> CountsRight(now)
  {
    hide CountsRight, MinesNear;
    forall p | p in F ensures p !in WithState(g, Revealed) && p in AllCells(g) && p !in Mines(g) {
      assert p in OpenSafe(g);
    }
    forall p | In(p) ensures At(now, p) == if p in F then At(g, p).(state := Revealed) else At(g, p) {}
    SameCounts(g, now);
  }

  /** The counts stay right where neither mines nor counts change. */
  lemma SameCounts(g: Grid, now: Grid)
    requires forall p :: In(p) ==> At(now, p).mine == At(g, p).mine && At(now, p).adjacent == At(g, p).adjacent
    ensures Mines(now) == Mines(g) && Safe(now) == Safe(g)
    ensures CountsRight(g) ==> CountsRight(now)
  {
    assert Mines(now) == Mines(g) && Safe(now) == Safe(g);
    forall p ensures MinesNear(now, p) == MinesNear(g, p) {}
  }

  /** Once a cell is revealed the first click is over. */
  lemma Started(g: Grid, c: Pos, revealed: int, flags: int, firstClick: bool, won: bool, over: bool)
    requires Consistent(g, revealed, flags, firstClick, won, over)
    requires In(c) && At(g, c).state == Revealed
    ensures !firstClick
  {
    assert c in WithState(g, Revealed);
  }

  /** A game under way meets what a reveal requires. */
  lemma ReadyToReveal(g: Grid, revealed: int, flags: int, won: bool, over: bool)
    requires Consistent(g, revealed, flags, false, won, over)
    ensures Clear(g) && revealed + |OpenSafe(g)| <= CELLS - MINE_COUNT && over == won
    ensures over <==> revealed == CELLS - MINE_COUNT
  {
    CountsClear(g);
    CountDecides(g);
  }

  /** Revealing safe cells keeps the bookkeeping right. */
  lemma FloodConsistent(g: Grid, now: Grid, F: set<Pos>, revealed: int, flags: int, won: bool, over: bool,
                        won': bool, over': bool)
    requires Consistent(g, revealed, flags, false, won, over)
    requires F <= OpenSafe(g) && Marked(g, now, F)
    requires Raised(won, won', revealed, revealed + |F|) && Raised(over, over', revealed, revealed + |F|)
    ensures Consistent(now, revealed + |F|, flags, false, won', over')
  {
    CountDecides(g);
    RevealKeeps(g, now, F);
    CountDecides(now);
  }

  /** Placing the mines at the first click starts a game under way. */
  lemma StartConsistent(g: Grid, now: Grid, revealed: int, flags: int, won: bool, over: bool)
    requires Consistent(g, revealed, flags, true, won, over)
    requires |Mines(now)| == MINE_COUNT && CountsRight(now)
    requires forall p :: In(p) ==> At(now, p).state == At(g, p).state
    ensures Consistent(now, revealed, flags, false, won, over)
  {
    StatesKept(g, now);
    assert WithState(now, Revealed) == {};
    CountDecides(now);
  }

  lemma FlagCount(g: Grid, now: Grid, c: Pos)
    requires In(c) && forall p :: In(p) && p != c ==> At(now, p) == At(g, p)
    ensures |WithState(now, Flagged)| == |WithState(g, Flagged)|
              + (if At(now, c).state == Flagged then 1 else 0) - (if At(g, c).state == Flagged then 1 else 0)
  {
    var f, f' := WithState(g, Flagged), WithState(now, Flagged);
    forall p ensures p in f - {c} <==> p in f' - {c} {
      if In(p) && p != c { assert At(now, p) == At(g, p); }
    }
    assert f - {c} == f' - {c};
    WithoutSize(f, c);
    WithoutSize(f', c);
  }

  lemma WithoutSize(s: set<Pos>, c: Pos)
    ensures |s| == |s - {c}| + if c in s then 1 else 0
  {
    if c in s { assert s == s - {c} + {c}; } else { assert s == s - {c}; }
  }

  /** A cell after its flag has been toggled. */
  function Toggled(was: Cell): Cell {
    was.(state := match was.state case Hidden => Flagged case Flagged => Hidden case Revealed => Revealed)
  }

  /** What toggling a flag does to them. */
  lemma ToggleKeeps(g: Grid, now: Grid, c: Pos)
    requires In(c) && now == g[Ix(c) := Toggled(At(g, c))]
    ensures WithState(now, Revealed) == WithState(g, Revealed) && Mines(now) == Mines(g) && Safe(now) == Safe(g)
    ensures |WithState(now, Flagged)| == |WithState(g, Flagged)|
              + match At(g, c).state case Hidden => 1 case Flagged => -1 case Revealed => 0
    ensures CountsRight(g) ==> CountsRight(now)
    ensures forall p :: In(p) ==> At(now, p).adjacent == At(g, p).adjacent
  {
    hide CountsRight, MinesNear;
    forall p | In(p) && p != c ensures At(now, p) == At(g, p) {}
    FlagCount(g, now, c);
    SameCounts(g, now);
  }

  /** Toggling a flag keeps the bookkeeping right. */
  lemma ToggleConsistent(g: Grid, now: Grid, c: Pos, revealed: int, flags: int, firstClick: bool, won: bool, over: bool)
    requires In(c) && now == g[Ix(c) := Toggled(At(g, c))]
    requires Consistent(g, revealed, flags, firstClick, won, over)
    ensures var change := match At(g, c).state case Hidden => 1 case Flagged => -1 case Revealed => 0;
            Consistent(now, revealed, flags + change, firstClick, won, over)
  {
    hide CountsRight, WithState, Mines, Safe;
    ToggleKeeps(g, now, c);
  }

  /** The counts are written for the safe cells before (x, y), row by row; nothing else differs. */
  ghost predicate CountedUpTo(g: Grid, now: Grid, y: int, x: int) {
    forall p :: In(p) ==>
      && At(now, p).mine == At(g, p).mine && At(now, p).state == At(g, p).state
      && (!At(g, p).mine && (p.y < y || (p.y == y && p.x < x)) ==> At(now, p).adjacent == |MinesNear(g, p)|)
  }

  lemma SameMines(g: Grid, now: Grid, y: int, x: int)
    requires CountedUpTo(g, now, y, x)
    ensures Mines(now) == Mines(g) && forall p :: MinesNear(now, p) == MinesNear(g, p)
  {}

  lemma CountOne(g: Grid, mid: Grid, now: Grid, y: int, x: int)
    requires CountedUpTo(g, mid, y, x) && In(Pos(x, y))
    requires var i := GRID_SIZE * y + x;
             now == if mid[i].mine then mid else mid[i := mid[i].(adjacent := |MinesNear(g, Pos(x, y))|)]
    ensures CountedUpTo(g, now, y, x + 1)
  {
    forall p | In(p) && p != Pos(x, y) ensures At(now, p) == At(mid, p) {}
  }

  lemma NothingPassed(S: set<Pos>, c: Pos)
    ensures PassedIn(S, c, -1, -1) == {}
  {}

  lemma PassOne(S: set<Pos>, c: Pos, dy: int, dx: int)
    requires -1 <= dy <= 1 && -1 <= dx <= 1
    ensures |PassedIn(S, c, dy, dx + 1)| == |PassedIn(S, c, dy, dx)| + if Pos(c.x + dx, c.y + dy) in S then 1 else 0
  {
    var q := Pos(c.x + dx, c.y + dy);
    var before, after := PassedIn(S, c, dy, dx), PassedIn(S, c, dy, dx + 1);
    forall p ensures Passed(c, p, dy, dx + 1) <==> Passed(c, p, dy, dx) || p == q {
      assert p == Pos(p.x, p.y);
    }
    assert q !in before;
    if q in S {
      assert after == before + {q};
    } else {
      assert after == before;
    }
  }

  lemma PassRow(S: set<Pos>, c: Pos, dy: int)
    ensures PassedIn(S, c, dy + 1, -1) == PassedIn(S, c, dy, 2)
  {}

  lemma AllPassed(S: set<Pos>, c: Pos)
    ensures PassedIn(S, c, 2, -1) == set q | q in S && Near(c, q)
  {}

  /** The middle of a reveal from c: what the double loop has passed is no longer hidden. */
  ghost predicate Revealing(g: Grid, now: Grid, c: Pos, F: set<Pos>, dy: int, dx: int) {
    Flooding(g, now, c, F) && forall q :: Passed(c, q, dy, dx) ==> !Open(now, q)
  }

  /** The middle of a chord around c: F has been revealed, it is closed, safe, and lies in every closed set
      around the safe neighbours of c; the neighbours that were passed are no longer hidden, and `hit` says
      whether one of them was a mine. */
  ghost predicate Chording(g: Grid, now: Grid, c: Pos, F: set<Pos>, hit: bool, dy: int, dx: int) {
    && Shown(g, now, F, hit) && AroundPassed(g, c, F, dy, dx)
    && (forall q :: Passed(c, q, dy, dx) ==> !Open(now, q))
    && (hit <==> exists q :: Passed(c, q, dy, dx) && Open(g, q) && At(g, q).mine)
  }

  lemma ChordStart(g: Grid, c: Pos)
    ensures Chording(g, g, c, {}, false, -1, -1)
  {}

  /** Once the chord has hit the mine m, G is what it had opened before. */
  ghost predicate HitAt(g: Grid, c: Pos, F: set<Pos>, hit: bool, m: Pos, G: set<Pos>) {
    if hit then FirstMine(g, c, m) && IsFloodBefore(g, c, m, G) && G <= F else G == F
  }

  lemma JustHit(g: Grid, now: Grid, c: Pos, F: set<Pos>, dy: int, dx: int)
    requires Chording(g, now, c, F, false, dy, dx) && -1 <= dx <= 1 && -1 <= dy <= 1
    ensures var m := Pos(c.x + dx, c.y + dy);
            Open(now, m) && At(now, m).mine ==> FirstMine(g, c, m) && IsFloodBefore(g, c, m, F)
  {
    ShownOpen(g, now, F, false);
    forall n | Passed(c, n, dy, dx) && Open(g, n) && !At(g, n).mine ensures n in F { assert !Open(now, n); }
  }

  /** All neighbours passed: F is the flood around c. */
  lemma ChordDone(g: Grid, now: Grid, c: Pos, F: set<Pos>, hit: bool)
    requires Chording(g, now, c, F, hit, 2, -1)
    ensures IsFloodAround(g, c, F) && Shown(g, now, F, hit) && (hit <==> MineBeside(g, c))
  {
    ShownOpen(g, now, F, hit);
    forall q ensures Near(c, q) <==> Passed(c, q, 2, -1) {}
    forall n | Near(c, n) && Open(g, n) && !At(g, n).mine ensures n in F {
      assert !Open(now, n);
    }
    forall S | Closed(g, S) && HasNeighbours(g, c, S) ensures F <= S { assert HasPassed(g, c, S, 2, -1); }
  }

  /** One reveal after F and perhaps every mine: it adds its flood, or every mine. */
  lemma ShownNext(g: Grid, mid: Grid, now: Grid, F: set<Pos>, hit: bool, n: Pos, G: set<Pos>)
    requires Shown(g, mid, F, hit) && F <= OpenSafe(g) && Reveals(mid, now, n, G)
    ensures Shown(g, now, F + G, hit || (Open(mid, n) && At(mid, n).mine))
  {
    ShownOpen(g, mid, F, hit);
    var hit' := hit || (Open(mid, n) && At(mid, n).mine);
    forall p | In(p)
      ensures At(now, p) == if p in F + G || (hit' && At(g, p).mine) then At(g, p).(state := Revealed) else At(g, p)
    {
      assert At(mid, p) == if p in F || (hit && At(g, p).mine) then At(g, p).(state := Revealed) else At(g, p);
    }
  }

  lemma PassedNext(c: Pos, dy: int, dx: int)
    requires -1 <= dx <= 1 && -1 <= dy <= 1
    ensures forall q :: Passed(c, q, dy, dx + 1) <==> Passed(c, q, dy, dx) || q == Pos(c.x + dx, c.y + dy)
  {
    forall q ensures Passed(c, q, dy, dx + 1) <==> Passed(c, q, dy, dx) || q == Pos(c.x + dx, c.y + dy) {
      assert q == Pos(q.x, q.y);
    }
  }

  /** The neighbours that were passed are open, and one of them was a mine exactly after a hit. */
  lemma PassedOpen(g: Grid, mid: Grid, now: Grid, c: Pos, F: set<Pos>, hit: bool, F': set<Pos>, hit': bool,
                   dy: int, dx: int)
    requires -1 <= dx <= 1 && -1 <= dy <= 1
    requires Shown(g, mid, F, hit) && Shown(g, now, F', hit') && F <= F' && F' <= OpenSafe(g)
    requires forall q :: Passed(c, q, dy, dx) ==> !Open(mid, q)
    requires hit <==> exists q :: Passed(c, q, dy, dx) && Open(g, q) && At(g, q).mine
    requires var n := Pos(c.x + dx, c.y + dy);
             (hit' <==> hit || (Open(mid, n) && At(mid, n).mine)) && (Open(mid, n) && !At(mid, n).mine ==> n in F')
    ensures forall q :: Passed(c, q, dy, dx + 1) ==> !Open(now, q)
    ensures hit' <==> exists q :: Passed(c, q, dy, dx + 1) && Open(g, q) && At(g, q).mine
  {
    hide Passed, Shown;
    ShownOpen(g, mid, F, hit);
    ShownOpen(g, now, F', hit');
    PassedNext(c, dy, dx);
    var n := Pos(c.x + dx, c.y + dy);
    if hit' && !hit { assert Passed(c, n, dy, dx + 1) && Open(g, n); }
  }

  /** The next neighbour's flood joins F, or the neighbour is a mine. */
  lemma ChordNext(g: Grid, mid: Grid, now: Grid, c: Pos, F: set<Pos>, hit: bool, G: set<Pos>, dy: int, dx: int)
    requires Clear(g) && Chording(g, mid, c, F, hit, dy, dx) && -1 <= dx <= 1 && -1 <= dy <= 1
    requires Reveals(mid, now, Pos(c.x + dx, c.y + dy), G)
    ensures var n := Pos(c.x + dx, c.y + dy);
            Chording(g, now, c, F + G, hit || (Open(mid, n) && At(mid, n).mine), dy, dx + 1)
    ensures |F + G| == |F| + |G|
    ensures Open(mid, Pos(c.x + dx, c.y + dy)) && At(mid, Pos(c.x + dx, c.y + dy)).mine ==> !hit && G == {}
  {
    hide Passed, Shown, Closed, HasPassed;
    var n := Pos(c.x + dx, c.y + dy);
    var hit' := hit || (Open(mid, n) && At(mid, n).mine);
    ShownOpen(g, mid, F, hit);
    ShownNext(g, mid, now, F, hit, n, G);
    ChordClosed(g, mid, c, F, hit, G, dy, dx);
    PassedOpen(g, mid, now, c, F, hit, F + G, hit', dy, dx);
  }

  lemma ChordClosed(g: Grid, mid: Grid, c: Pos, F: set<Pos>, hit: bool, G: set<Pos>, dy: int, dx: int)
    requires Clear(g) && Shown(g, mid, F, hit) && AroundPassed(g, c, F, dy, dx) && -1 <= dx <= 1 && -1 <= dy <= 1
    requires var n := Pos(c.x + dx, c.y + dy);
             if Open(mid, n) && !At(mid, n).mine then IsFlood(mid, n, G) else G == {}
    ensures AroundPassed(g, c, F + G, dy, dx + 1) && |F + G| == |F| + |G|
  {
    hide Shown, Passed, Closed, HasPassed, IsFlood, Clear;
    var n := Pos(c.x + dx, c.y + dy);
    forall S: set<Pos> ensures OneMorePassed(g, c, S, dy, dx) { PassedMore(g, c, S, dy, dx); }
    if Open(mid, n) && !At(mid, n).mine {
      FloodJoins(g, mid, F, hit, n, G);
      forall S: set<Pos> | Closed(g, S) && HasPassed(g, c, S, dy, dx + 1) ensures F + G <= S {
        assert OneMorePassed(g, c, S, dy, dx);
        FloodLater(g, mid, F, hit, n, G, S);
      }
    } else {
      assert F + G == F;
      forall S: set<Pos> | Closed(g, S) && HasPassed(g, c, S, dy, dx + 1) ensures F <= S {
        assert OneMorePassed(g, c, S, dy, dx);
      }
    }
  }

  ghost predicate OneMorePassed(g: Grid, c: Pos, S: set<Pos>, dy: int, dx: int) {
    var n := Pos(c.x + dx, c.y + dy);
    HasPassed(g, c, S, dy, dx + 1) <==> HasPassed(g, c, S, dy, dx) && (Open(g, n) && !At(g, n).mine ==> n in S)
  }

  lemma PassedMore(g: Grid, c: Pos, S: set<Pos>, dy: int, dx: int)
    requires -1 <= dx <= 1 && -1 <= dy <= 1
    ensures OneMorePassed(g, c, S, dy, dx)
  {
    PassedNext(c, dy, dx);
  }

  /** A later flood joins F: the union is closed and safe, and no cell is counted twice. */
  lemma FloodJoins(g: Grid, mid: Grid, F: set<Pos>, hit: bool, n: Pos, G: set<Pos>)
    requires Clear(g) && Shown(g, mid, F, hit) && Closed(g, F) && F <= OpenSafe(g)
    requires Open(mid, n) && !At(mid, n).mine && IsFlood(mid, n, G)
    ensures Closed(g, F + G) && F + G <= OpenSafe(g) && |F + G| == |F| + |G|
    ensures Open(g, n) && !At(g, n).mine
  {
    ShownOpen(g, mid, F, hit);
    FloodSafe(mid, n, G);
    forall p | p in G ensures p in OpenSafe(g) && p !in F { assert p in OpenSafe(mid) && p in AllCells(g); }
    DisjointSize(F + G, F);
    assert (F + G) - F == G;
    forall p, q | p in F + G && In(p) && Zero(g, p) && Near(p, q) && Open(g, q) ensures q in F + G {
      if p !in F && q !in F { assert Zero(mid, p) && Open(mid, q); }
    }
  }

  /** A later flood lies in the closed sets of the beginning that contain its start. */
  lemma FloodLater(g: Grid, mid: Grid, F: set<Pos>, hit: bool, n: Pos, G: set<Pos>, S: set<Pos>)
    requires Shown(g, mid, F, hit) && Closed(g, S) && n in S && IsFlood(mid, n, G)
    ensures G <= S
  {
    ShownOpen(g, mid, F, hit);
    forall p, q | p in S && In(p) && Zero(mid, p) && Near(p, q) && Open(mid, q) ensures q in S {
      assert Zero(g, p) && Open(g, q);
    }
    assert Closed(mid, S);
  }

  lemma ChordClear(g: Grid, mid: Grid, c: Pos, F: set<Pos>, hit: bool, dy: int, dx: int)
    requires Clear(g) && Chording(g, mid, c, F, hit, dy, dx)
    ensures Clear(mid)
  {
    ShownOpen(g, mid, F, hit);
  }

  lemma FloodMarked(g: Grid, now: Grid, c: Pos, F: set<Pos>)
    requires IsFloodAround(g, c, F) && Shown(g, now, F, false)
    ensures F <= OpenSafe(g) && Marked(g, now, F)
  {}

  lemma ChordRow(g: Grid, now: Grid, c: Pos, F: set<Pos>, hit: bool, dy: int)
    requires Chording(g, now, c, F, hit, dy, 2)
    ensures Chording(g, now, c, F, hit, dy + 1, -1)
  {
    forall q ensures Passed(c, q, dy + 1, -1) <==> Passed(c, q, dy, 2) {}
  }

  /** A chord that has hit a mine opens only safe cells. */
  lemma ChordRoom(g: Grid, now: Grid, c: Pos, F: set<Pos>, hit: bool, dy: int, dx: int)
    requires Chording(g, now, c, F, hit, dy, dx)
    ensures |F| <= |OpenSafe(g)| && (hit ==> MineBeside(g, c))
  {
    SubsetSize(F, OpenSafe(g));
  }

  lemma Grown(F: set<Pos>, flood: set<Pos>, G: set<Pos>)
    ensures |flood| == 0 ==> F + flood == F
    ensures |F + flood| == |F| + |flood| && |flood| > 0 && G <= F ==> F + flood != G
  {
    if F + flood == G && G <= F { assert F + flood == F; }
  }

  /** A chord beside a hidden mine leaves a safe cell, under a flag, unopened. */
  lemma RoomToChord(g: Grid, c: Pos, revealed: int, flags: int, won: bool, over: bool)
    requires Consistent(g, revealed, flags, false, won, over)
    requires In(c) && At(g, c).state == Revealed && |FlagsNear(g, c)| == At(g, c).adjacent
    ensures MineBeside(g, c) ==> revealed + |OpenSafe(g)| < CELLS - MINE_COUNT
  {
    hide CountsRight, MineBeside;
    if MineBeside(g, c) { WrongFlag(g, c); }
  }

  /** The flags during a chord: after a hit the game is over, and it counts as won exactly when the count has
      reached 216 and something was opened after the mine; before one they say whether every safe cell is. */
  predicate ChordFlags(hit: bool, won: bool, over: bool, start: int, end: int, later: bool) {
    if hit then over && end <= CELLS - MINE_COUNT && (won <==> end == CELLS - MINE_COUNT && later)
    else Raised(false, won, start, end) && Raised(false, over, start, end)
  }

  lemma RevealingNext(g: Grid, now: Grid, c: Pos, F: set<Pos>, dy: int, dx: int)
    ensures Revealing(g, now, c, F, dy, dx) && !Open(now, Pos(c.x + dx, c.y + dy)) ==>
              Revealing(g, now, c, F, dy, dx + 1)
  {
    if Revealing(g, now, c, F, dy, dx) && !Open(now, Pos(c.x + dx, c.y + dy)) {
      forall q | Passed(c, q, dy, dx + 1) ensures !Open(now, q) {
        assert Passed(c, q, dy, dx) || q == Pos(c.x + dx, c.y + dy);
      }
    }
  }

  /** One visit: the flood grows by what the call revealed, if anything, and one more neighbour is open. */
  lemma VisitDone(g: Grid, mid: Grid, now: Grid, c: Pos, F: set<Pos>, G: set<Pos>, dy: int, dx: int)
    requires In(c) && Zero(g, c) && Clear(g) && -1 <= dx <= 1 && -1 <= dy <= 1
    requires Clear(mid) && Revealing(g, mid, c, F, dy, dx)
    requires var n := Pos(c.x + dx, c.y + dy);
             if Open(mid, n) then !At(mid, n).mine && IsFlood(mid, n, G) && Marked(mid, now, G)
             else now == mid && G == {}
    ensures Revealing(g, now, c, F + G, dy, dx + 1)
    ensures |F + G| == |F| + |G| && |G| <= |OpenSafe(mid)| && Unopened(now) <= Unopened(mid)
    ensures Open(mid, Pos(c.x + dx, c.y + dy)) <==> G != {}
  {
    var n := Pos(c.x + dx, c.y + dy);
    if Open(mid, n) {
      AfterCall(g, mid, now, c, F, n, G, dy, dx);
    } else {
      assert F + G == F;
    }
    RevealingNext(g, now, c, F + G, dy, dx);
  }

  lemma RevealingRow(g: Grid, now: Grid, c: Pos, F: set<Pos>, dy: int)
    requires Revealing(g, now, c, F, dy, 2)
    ensures Revealing(g, now, c, F, dy + 1, -1)
  {
    forall q | Passed(c, q, dy + 1, -1) ensures !Open(now, q) {
      assert Passed(c, q, dy, 2);
    }
  }

  lemma FloodStart(g: Grid, now: Grid, c: Pos)
    requires Open(g, c) && !At(g, c).mine && now == g[Ix(c) := g[Ix(c)].(state := Revealed)]
    ensures Flooding(g, now, c, {c})
  {}

  /** The recursive call meets its requirements: no mine beside c, fewer hidden cells. */
  lemma BeforeCall(g: Grid, mid: Grid, c: Pos, F: set<Pos>, n: Pos)
    requires Clear(g) && Flooding(g, mid, c, F) && Zero(g, c) && Near(c, n)
    ensures Clear(mid) && Unopened(mid) < Unopened(g)
    ensures Open(mid, n) ==> !At(mid, n).mine && n in OpenSafe(mid)
    ensures |OpenSafe(mid)| == |OpenSafe(g)| - |F|
  {
    MarkedOpen(g, mid, F);
    assert c in OpenSafe(g);
    MarkedUnopened(g, mid, F, c);
    DisjointSize(OpenSafe(g), F);
    if Open(mid, n) {
      assert !At(g, n).mine && At(mid, n).mine == At(g, n).mine;
      assert n in AllCells(g);
    }
  }

  lemma DisjointSize(a: set<Pos>, b: set<Pos>)
    requires b <= a
    ensures |a - b| == |a| - |b|
  {
    assert a == (a - b) + b;
  }

  /** After the call: a larger flood of c, and what was passed stays passed. */
  lemma AfterCall(g: Grid, mid: Grid, now: Grid, c: Pos, F: set<Pos>, n: Pos, G: set<Pos>, dy: int, dx: int)
    requires In(c) && Zero(g, c) && Near(c, n) && Clear(g)
    ensures Clear(mid) && Revealing(g, mid, c, F, dy, dx) && Open(mid, n) && !At(mid, n).mine
            && IsFlood(mid, n, G) && Marked(mid, now, G) ==>
              && Revealing(g, now, c, F + G, dy, dx) && !Open(now, n)
              && |F + G| == |F| + |G| && 0 < |G| <= |OpenSafe(mid)|
              && Unopened(now) <= Unopened(mid)
  {
    if Clear(mid) && Revealing(g, mid, c, F, dy, dx) && Open(mid, n) && !At(mid, n).mine
       && IsFlood(mid, n, G) && Marked(mid, now, G) {
      FloodStep(g, mid, now, c, F, n, G);
      MarkedOpen(mid, now, G);
      FloodSafe(mid, n, G);
      SubsetSize(G, OpenSafe(mid));
      MarkedUnopened(mid, now, G, n);
      assert n in G;
    }
  }
}

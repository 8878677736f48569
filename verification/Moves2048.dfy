/** The moves of 2048 seen from the sides of the board, and which key moves to which side. */
module Moves2048 {
  import opened Bits
  import opened Game2048
  import opened Slide2048

  datatype Side = Left | Right | Up | Down

  /** The k-th line that ends at a side, read from there. */
  function Line(b: Board, side: Side, k: nat): (line: seq<int>)
    requires k < SIZE
    ensures |line| == SIZE
  {
    match side
    case Left => seq(SIZE, i requires 0 <= i < SIZE => At(b, k, i))
    case Right => seq(SIZE, i requires 0 <= i < SIZE => At(b, k, SIZE - 1 - i))
    case Up => seq(SIZE, i requires 0 <= i < SIZE => At(b, i, k))
    case Down => seq(SIZE, i requires 0 <= i < SIZE => At(b, SIZE - 1 - i, k))
  }

  /** Every line of `now` is that of b slid to the side. */
  ghost predicate SlidTo(b: Board, side: Side, now: Board) {
    forall k: nat :: k < SIZE ==> Line(now, side, k) == SlideRow(Line(b, side, k))
  }

  /** The side to which move d slides. */
  function SideOf(d: nat): Side
    requires d < 4
  {
    match d case 0 => Left case 1 => Down case 2 => Right case 3 => Up
  }

  /** Row y of the turned board is a line that ends at that side. */
  lemma RowIsLine(b: Board, d: nat, y: nat)
    requires d < 4 && y < SIZE
    ensures Row(Rotations(b, d), y) == Line(b, SideOf(d), if d < 2 then y else SIZE - 1 - y)
  {
    hide Rotations;
    var k := if d < 2 then y else SIZE - 1 - y;
    forall x | 0 <= x < SIZE ensures Row(Rotations(b, d), y)[x] == Line(b, SideOf(d), k)[x] {
      RotationsCell(b, d, y, x);
      assert At(Rotations(b, d), y, x) == Row(Rotations(b, d), y)[x];
    }
  }

  /** Turning, sliding left and turning back slides to one side. */
  lemma MoveSlides(b: Board, d: nat)
    requires d < 4
    ensures SlidTo(b, SideOf(d), MoveBoard(b, d))
    ensures MoveBoard(b, d) == b <==> SlidTo(b, SideOf(d), b)
  {
    var m, s := MoveBoard(b, d), SlideLeft(Rotations(b, d));
    TurnBack(s, d);
    forall k: nat | k < SIZE ensures Line(m, SideOf(d), k) == SlideRow(Line(b, SideOf(d), k)) {
      var y := if d < 2 then k else SIZE - 1 - k;
      RowIsLine(b, d, y);
      RowIsLine(m, d, y);
      SlideLeftRow(Rotations(b, d), y);
    }
    if SlidTo(b, SideOf(d), b) { OneSlid(b, SideOf(d), m, b); }
  }

  /** What a side makes of a board is one board. */
  lemma OneSlid(b: Board, side: Side, m: Board, n: Board)
    requires SlidTo(b, side, m) && SlidTo(b, side, n)
    ensures m == n
  {
    forall y, x | 0 <= y < SIZE && 0 <= x < SIZE ensures At(m, y, x) == At(n, y, x) {
      var k := if side.Left? || side.Right? then y else x;
      var i := match side case Left => x case Right => SIZE - 1 - x case Up => y case Down => SIZE - 1 - y;
      assert Line(m, side, k)[i] == Line(n, side, k)[i];
    }
    BoardExt(m, n);
  }

  /** The board slid to the side, and a new tile on it. */
  ghost predicate SlidAndSpawned(b: Board, side: Side, now: Board, pick: nat, four: bool) {
    exists m: Board :: SlidTo(b, side, m) && Spawned(m, now, pick, four)
  }

  /** The side that a key names, by character code, and the side to which it moves the tiles. */
  function Named(c: int): Option<Side> {
    if c in {75, 'a' as int, 'A' as int} then Some(Left)
    else if c in {77, 'd' as int, 'D' as int} then Some(Right)
    else if c in {72, 'w' as int, 'W' as int} then Some(Up)
    else if c in {80, 's' as int, 'S' as int} then Some(Down)
    else None
  }

  function MovesTo(c: int): Option<Side> {
    match Named(c)
    case None => None
    case Some(Left) => Some(Up)
    case Some(Right) => Some(Down)
    case Some(Up) => Some(Left)
    case Some(Down) => Some(Right)
  }

  /** No key moves to the side it names: left and up are exchanged, and right and down. */
  lemma KeysMoveElsewhere(c: int)
    requires Named(c).Some?
    ensures MovesTo(c).Some? && MovesTo(c) != Named(c)
    ensures MovesTo(c).value in {Left, Right} <==> Named(c).value in {Up, Down}
  {}

  /** By scan code and by letter, in both cases. */
  lemma KeyCodes(c: int)
    ensures MovesTo(c) == Some(Up) <==> c == 75 || c == 97 || c == 65
    ensures MovesTo(c) == Some(Down) <==> c == 77 || c == 100 || c == 68
    ensures MovesTo(c) == Some(Left) <==> c == 72 || c == 119 || c == 87
    ensures MovesTo(c) == Some(Right) <==> c == 80 || c == 115 || c == 83
  {}

  /** The left key moves a single tile in the middle to the top, not to the left. */
  lemma LeftKeyMovesUp(m: Board)
    requires SlidTo(OneTile(), MovesTo(75).value, m)
    ensures Named(75) == Some(Left) && At(m, 0, 1) == 2 && !SlidTo(OneTile(), Left, m)
  {
    LinesOfOne();
    OneInLine();
    hide OneTile, SlideRow;
    assert Line(m, Up, 1)[0] == 2;
    assert Line(m, Left, 0)[1] == At(m, 0, 1) == 2;
  }

  lemma LinesOfOne()
    ensures Line(OneTile(), Up, 1) == [0, 2, 0, 0] && Line(OneTile(), Left, 0) == [0, 0, 0, 0]
  {}

  lemma OneInLine()
    ensures SlideRow([0, 2, 0, 0]) == [2, 0, 0, 0] && SlideRow([0, 0, 0, 0]) == [0, 0, 0, 0]
  {
    CompactOne([0, 2, 0, 0]);
    assert Zeros(3) == [0, 0, 0];
    NoTiles(4);
    assert Zeros(4) == [0, 0, 0, 0];
  }

  /** A row of one tile behind a zero. */
  lemma {:induction false} CompactOne(r: seq<int>)
    requires |r| >= 2 && r[0] == 0 && r[1] == 2 && forall i :: 2 <= i < |r| ==> r[i] == 0
    ensures Compact(r) == [2] && Merge(Compact(r)) == [2]
  {
    if |r| > 2 {
      CompactOne(r[..|r|-1]);
    } else {
      assert r[..1] == [0] && Compact([0]) == Compact([0][..0]);
    }
  }

  function OneTile(): Board { seq(CELLS, i => if i == 5 then 2 else 0) }

  lemma {:induction false} NoTiles(n: nat)
    ensures Compact(Zeros(n)) == [] && SlideRow(Zeros(n)) == Zeros(n)
  {
    if n > 0 {
      NoTiles(n - 1);
      assert Zeros(n)[..n - 1] == Zeros(n - 1);
    }
  }
}

/** 2048: sliding a row in place against a definition by filtering and merging, the four moves as
    rotated slides, the score as a potential, and when the game is over. */
module Game2048 {

  const SIZE: nat := 4
  const CELLS: nat := SIZE * SIZE

  // ---------- one row: drop zeros, merge equal neighbours once, pad ----------

  predicate NonZero(t: seq<int>) { forall i :: 0 <= i < |t| ==> t[i] != 0 }

  function Compact(r: seq<int>): (t: seq<int>)
    ensures |t| <= |r| && NonZero(t)
  {
    if r == [] then [] else Compact(r[..|r|-1]) + (if r[|r|-1] == 0 then [] else [r[|r|-1]])
  }

  function Merge(t: seq<int>): (m: seq<int>)
    ensures |m| <= |t|
    ensures t != [] ==> m != []
  {
    if |t| < 2 then t
    else if t[0] == t[1] then [2 * t[0]] + Merge(t[2..])
    else [t[0]] + Merge(t[1..])
  }

  /** The values of the tiles that merging creates. */
  function Gains(t: seq<int>): seq<int> {
    if |t| < 2 then []
    else if t[0] == t[1] then [2 * t[0]] + Gains(t[2..])
    else Gains(t[1..])
  }

  /** Was the last tile of the result created by merging? */
  predicate LastMerged(t: seq<int>) {
    |t| >= 2 && if t[0] == t[1] then |t| == 2 || LastMerged(t[2..]) else LastMerged(t[1..])
  }

  function Zeros(n: nat): (z: seq<int>)
    ensures |z| == n && forall i :: 0 <= i < n ==> z[i] == 0
  {
    seq(n, i => 0)
  }

  function SlideRow(r: seq<int>): (s: seq<int>)
    ensures |s| == |r|
  {
    var m := Merge(Compact(r));
    m + Zeros(|r| - |m|)
  }

  /** One more tile v on the right of t joins the last tile of the merged row, or follows it. */
  predicate Snoc(t: seq<int>, v: int) {
    var joins := t != [] && !LastMerged(t) && Merge(t)[|Merge(t)| - 1] == v;
    && Merge(t + [v]) == (if joins then Merge(t)[..|Merge(t)| - 1] + [2 * v] else Merge(t) + [v])
    && Gains(t + [v]) == Gains(t) + (if joins then [2 * v] else [])
    && (LastMerged(t + [v]) <==> joins)
  }

  lemma SnocAfterPair(t: seq<int>, v: int)
    requires |t| >= 2 && t[0] == t[1] && Snoc(t[2..], v)
    ensures Snoc(t, v)
  {
    var u := t + [v];
    assert u[2..] == t[2..] + [v];
  }

  lemma SnocAfterOne(t: seq<int>, v: int)
    requires |t| >= 2 && t[0] != t[1] && Snoc(t[1..], v)
    ensures Snoc(t, v)
  {
    var u := t + [v];
    assert u[1..] == t[1..] + [v];
  }

  lemma SnocShort(t: seq<int>, v: int)
    requires |t| < 2
    ensures Snoc(t, v)
  {
    var u := t + [v];
    if |t| == 1 { assert u[2..] == [] && u[1..] == [v]; }
  }

  /** What one more tile on the right does to the merged row. */
  lemma {:induction false} MergeSnoc(t: seq<int>, v: int)
    ensures Snoc(t, v)
  {
    hide Merge, Gains, LastMerged;
    if |t| < 2 {
      SnocShort(t, v);
    } else if t[0] == t[1] {
      MergeSnoc(t[2..], v);
      SnocAfterPair(t, v);
    } else {
      MergeSnoc(t[1..], v);
      SnocAfterOne(t, v);
    }
  }

  // ---------- when a slide changes nothing ----------

  predicate NoPairs(t: seq<int>) { forall i :: 0 <= i < |t| - 1 ==> t[i] != t[i + 1] }

  /** The tiles are at the left, and no two neighbours are equal. */
  predicate Packed(r: seq<int>) {
    forall i :: 0 <= i < |r| - 1 ==> if r[i] == 0 then r[i + 1] == 0 else r[i] != r[i + 1]
  }

  lemma {:induction false} MergeShrinks(t: seq<int>)
    ensures NoPairs(t) ==> Merge(t) == t
    ensures !NoPairs(t) ==> |Merge(t)| < |t|
  {
    if |t| >= 2 {
      if t[0] == t[1] {
        assert !NoPairs(t);
      } else {
        MergeShrinks(t[1..]);
        assert t == [t[0]] + t[1..];
        if NoPairs(t[1..]) {
          forall i | 0 <= i < |t| - 1 ensures t[i] != t[i + 1] {
            if i > 0 { assert t[1..][i - 1] != t[1..][i]; }
          }
        } else {
          var i :| 0 <= i < |t| - 2 && t[1..][i] == t[1..][i + 1];
          assert t[i + 1] == t[i + 1 + 1];
        }
      }
    }
  }

  lemma {:induction false} MergeNonZero(t: seq<int>)
    requires NonZero(t)
    ensures NonZero(Merge(t))
  {
    if |t| >= 2 {
      if t[0] == t[1] { MergeNonZero(t[2..]); } else { MergeNonZero(t[1..]); }
    }
  }

  lemma {:induction false} CompactOfPadded(t: seq<int>, n: nat)
    requires NonZero(t)
    ensures Compact(t + Zeros(n)) == t
  {
    var r := t + Zeros(n);
    if n > 0 {
      assert r[..|r|-1] == t + Zeros(n - 1);
      CompactOfPadded(t, n - 1);
    } else if t != [] {
      var u := t[..|t|-1];
      assert r == t && r[..|r|-1] == u + Zeros(0);
      CompactOfPadded(u, 0);
      assert t == u + [t[|t|-1]];
    }
  }

  /** In a packed row everything after the first zero is zero. */
  lemma {:induction false} PackedPadded(r: seq<int>) returns (k: nat)
    requires Packed(r)
    ensures k <= |r| && r == r[..k] + Zeros(|r| - k)
    ensures forall i :: 0 <= i < k ==> r[i] != 0
  {
    k := 0;
    while k < |r| && r[k] != 0
      invariant 0 <= k <= |r| && forall i :: 0 <= i < k ==> r[i] != 0
    {
      k := k + 1;
    }
    var j := k;
    while j < |r|
      invariant k <= j <= |r| && forall i :: k <= i < j ==> r[i] == 0
    {
      if j > k { assert r[j - 1] == 0; }
      j := j + 1;
    }
  }

  lemma PackedStays(r: seq<int>)
    requires Packed(r)
    ensures SlideRow(r) == r
  {
    var k := PackedPadded(r);
    var t := r[..k];
    CompactOfPadded(t, |r| - k);
    assert NoPairs(t) by {
      forall i: nat | i + 1 < k ensures t[i] != t[i + 1] { assert r[i] == t[i] && r[i] != 0; }
    }
    MergeShrinks(t);
  }

  lemma StaysPacked(r: seq<int>)
    requires SlideRow(r) == r
    ensures Packed(r)
  {
    var t := Compact(r);
    var m := Merge(t);
    MergeNonZero(t);
    CompactOfPadded(m, |r| - |m|);
    MergeShrinks(t);
    assert r == m + Zeros(|r| - |m|) && NoPairs(m) && NonZero(m);
  }

  /** A slide leaves exactly the packed rows alone. */
  lemma SlideFixed(r: seq<int>)
    ensures SlideRow(r) == r <==> Packed(r)
  {
    if Packed(r) { PackedStays(r); }
    if SlideRow(r) == r { StaysPacked(r); }
  }

  // ---------- the board ----------

  type Board = b: seq<int> | |b| == CELLS witness seq(CELLS, i => 0)

  function At(b: Board, y: int, x: int): int
    requires 0 <= y < SIZE && 0 <= x < SIZE
  {
    b[SIZE * y + x]
  }

  function Row(b: Board, y: nat): (r: seq<int>)
    requires y < SIZE
    ensures |r| == SIZE
  {
    b[SIZE * y..SIZE * y + SIZE]
  }

  function SlideLeft(b: Board): Board {
    seq(CELLS, i requires 0 <= i < CELLS => SlideRow(Row(b, i / SIZE))[i % SIZE])
  }

  lemma SlideLeftRow(b: Board, y: nat)
    requires y < SIZE
    ensures Row(SlideLeft(b), y) == SlideRow(Row(b, y))
  {
    hide SlideRow;
    forall x | 0 <= x < SIZE ensures Row(SlideLeft(b), y)[x] == SlideRow(Row(b, y))[x] {
      var i := SIZE * y + x;
      assert i / SIZE == y && i % SIZE == x;
    }
  }

  lemma RowsExt(b: Board, c: Board)
    requires forall y: nat :: y < SIZE ==> Row(b, y) == Row(c, y)
    ensures b == c
  {
    forall i | 0 <= i < CELLS ensures b[i] == c[i] {
      assert Row(b, i / SIZE)[i % SIZE] == Row(c, i / SIZE)[i % SIZE];
    }
  }

  /** The values of the tiles that sliding the first n rows creates. */
  function RowGains(b: Board, n: nat): seq<int>
    requires n <= SIZE
  {
    if n == 0 then [] else RowGains(b, n - 1) + Gains(Compact(Row(b, n - 1)))
  }

  /** The values of all tiles that a slide creates. */
  function SlideGains(b: Board): seq<int> { RowGains(b, |b| / SIZE) }

  /** A quarter turn clockwise. */
  function Rotate(b: Board): Board {
    seq(CELLS, i requires 0 <= i < CELLS => b[SIZE * (SIZE - 1 - i % SIZE) + i / SIZE])
  }

  function Rotations(b: Board, n: nat): Board {
    if n == 0 then b else Rotate(Rotations(b, n - 1))
  }

  lemma RotateCell(b: Board, y: int, x: int)
    requires 0 <= y < SIZE && 0 <= x < SIZE
    ensures At(Rotate(b), y, x) == At(b, SIZE - 1 - x, y)
  {
    var i := SIZE * y + x;
    assert i % SIZE == x && i / SIZE == y;
  }

  lemma BoardExt(b: Board, c: Board)
    requires forall y, x :: 0 <= y < SIZE && 0 <= x < SIZE ==> At(b, y, x) == At(c, y, x)
    ensures b == c
  {
    forall i | 0 <= i < CELLS ensures b[i] == c[i] {
      assert At(b, i / SIZE, i % SIZE) == At(c, i / SIZE, i % SIZE);
    }
  }

  lemma FourRotations(b: Board)
    ensures Rotate(Rotate(Rotate(Rotate(b)))) == b
  {
    forall y, x | 0 <= y < SIZE && 0 <= x < SIZE
      ensures At(Rotate(Rotate(Rotate(Rotate(b)))), y, x) == At(b, y, x)
    {
      RotateCell(Rotate(Rotate(Rotate(b))), y, x);
      RotateCell(Rotate(Rotate(b)), SIZE - 1 - x, y);
      RotateCell(Rotate(b), SIZE - 1 - y, SIZE - 1 - x);
      RotateCell(b, x, SIZE - 1 - y);
    }
    BoardExt(Rotate(Rotate(Rotate(Rotate(b)))), b);
  }

  lemma {:induction false} RotationsAdd(b: Board, m: nat, n: nat)
    ensures Rotations(Rotations(b, m), n) == Rotations(b, m + n)
  {
    if n > 0 { RotationsAdd(b, m, n - 1); }
  }

  lemma FullTurn(b: Board)
    ensures Rotations(b, 4) == b
  {
    FourRotations(b);
    assert Rotations(b, 1) == Rotate(b);
    assert Rotations(b, 2) == Rotate(Rotate(b));
    assert Rotations(b, 3) == Rotate(Rotate(Rotate(b)));
  }

  /** `move(d)`: slide the board turned d times, and turn it back. */
  function MoveBoard(b: Board, d: nat): Board
    requires d < 4
  {
    Rotations(SlideLeft(Rotations(b, d)), (4 - d) % 4)
  }

  lemma TurnBack(b: Board, d: nat)
    requires d < 4
    ensures Rotations(Rotations(b, d), (4 - d) % 4) == b
    ensures Rotations(Rotations(b, (4 - d) % 4), d) == b
  {
    var back := (4 - d) % 4;
    RotationsAdd(b, d, back);
    RotationsAdd(b, back, d);
    FullTurn(b);
    if d == 0 { assert d + back == 0; } else { assert d + back == 4; }
  }

  /** Turning back undoes the turn, so a move changes the board iff the slide does. */
  lemma MoveChanges(b: Board, d: nat)
    requires d < 4
    ensures MoveBoard(b, d) == b <==> SlideLeft(Rotations(b, d)) == Rotations(b, d)
  {
    TurnBack(b, d);
    TurnBack(SlideLeft(Rotations(b, d)), d);
  }

  // ---------- game over ----------

  predicate HasTile(b: Board) { exists i :: 0 <= i < CELLS && b[i] != 0 }

  /** What `can_move` looks for: an empty cell, or equal neighbours. */
  predicate Playable(b: Board) {
    exists y, x :: 0 <= y < SIZE && 0 <= x < SIZE && PlayableAt(b, y, x)
  }

  predicate PlayableAt(b: Board, y: int, x: int)
    requires 0 <= y < SIZE && 0 <= x < SIZE
  {
    At(b, y, x) == 0
    || (x < SIZE - 1 && At(b, y, x) == At(b, y, x + 1))
    || (y < SIZE - 1 && At(b, y, x) == At(b, y + 1, x))
  }

  /** Row y is packed, cell by cell. */
  predicate PackedRow(b: Board, y: int)
    requires 0 <= y < SIZE
  {
    forall x :: 0 <= x < SIZE - 1 ==>
      if At(b, y, x) == 0 then At(b, y, x + 1) == 0 else At(b, y, x) != At(b, y, x + 1)
  }

  lemma PackedRowIs(b: Board, y: nat)
    requires y < SIZE
    ensures PackedRow(b, y) <==> Packed(Row(b, y))
  {
    forall x | 0 <= x < SIZE ensures Row(b, y)[x] == At(b, y, x) {}
  }

  lemma SlideFixesBoard(b: Board)
    ensures SlideLeft(b) == b <==> forall y :: 0 <= y < SIZE ==> PackedRow(b, y)
  {
    forall y: nat | y < SIZE ensures PackedRow(b, y) <==> Row(SlideLeft(b), y) == Row(b, y) {
      PackedRowIs(b, y);
      SlideLeftRow(b, y);
      SlideFixed(Row(b, y));
    }
    if forall y :: 0 <= y < SIZE ==> PackedRow(b, y) { RowsExt(SlideLeft(b), b); }
  }

  /** Where cell (y, x) of the board turned d times comes from. */
  function Source(d: nat, y: int, x: int): (int, int)
    requires d < 4
  {
    match d
    case 0 => (y, x)
    case 1 => (SIZE - 1 - x, y)
    case 2 => (SIZE - 1 - y, SIZE - 1 - x)
    case 3 => (x, SIZE - 1 - y)
  }

  lemma RotationsCell(b: Board, d: nat, y: int, x: int)
    requires d < 4 && 0 <= y < SIZE && 0 <= x < SIZE
    ensures At(Rotations(b, d), y, x) == At(b, Source(d, y, x).0, Source(d, y, x).1)
  {
    if d > 0 {
      RotateCell(Rotations(b, d - 1), y, x);
      RotationsCell(b, d - 1, SIZE - 1 - x, y);
    }
  }

  /** Two cells side by side in the turned board are side by side in the board. */
  predicate SideBySide(p: (int, int), q: (int, int)) {
    0 <= p.0 < SIZE && 0 <= p.1 < SIZE && 0 <= q.0 < SIZE && 0 <= q.1 < SIZE
    && ((p.0 == q.0 && -1 <= p.1 - q.1 <= 1 && p.1 != q.1) || (p.1 == q.1 && -1 <= p.0 - q.0 <= 1 && p.0 != q.0))
  }

  lemma SourcesSideBySide(d: nat, y: int, x: int)
    requires d < 4 && 0 <= y < SIZE && 0 <= x < SIZE - 1
    ensures SideBySide(Source(d, y, x), Source(d, y, x + 1))
  {}

  lemma PairPlayable(b: Board, p: (int, int), q: (int, int))
    requires SideBySide(p, q) && At(b, p.0, p.1) == At(b, q.0, q.1)
    ensures Playable(b)
  {
    if p.0 < q.0 || p.1 < q.1 {
      assert PlayableAt(b, p.0, p.1);
    } else {
      assert PlayableAt(b, q.0, q.1);
    }
  }

  /** Where a row is not packed there is a tile, and a gap or a pair. */
  lemma Unpacked(b: Board, p: (int, int), q: (int, int))
    requires SideBySide(p, q)
    requires if At(b, p.0, p.1) == 0 then At(b, q.0, q.1) != 0 else At(b, p.0, p.1) == At(b, q.0, q.1)
    ensures Playable(b) && HasTile(b)
  {
    if At(b, p.0, p.1) == 0 {
      assert PlayableAt(b, p.0, p.1);
      assert b[SIZE * q.0 + q.1] != 0;
    } else {
      PairPlayable(b, p, q);
      assert b[SIZE * p.0 + p.1] != 0;
    }
  }

  lemma CanMoveNeedsPlayable(b: Board, d: nat)
    requires d < 4 && MoveBoard(b, d) != b
    ensures Playable(b) && HasTile(b)
  {
    MoveChanges(b, d);
    var r := Rotations(b, d);
    SlideFixesBoard(r);
    var y :| 0 <= y < SIZE && !PackedRow(r, y);
    var x :| 0 <= x < SIZE - 1 && if At(r, y, x) == 0 then At(r, y, x + 1) != 0 else At(r, y, x) == At(r, y, x + 1);
    UnpackedSource(b, d, r, y, x);
  }

  lemma UnpackedSource(b: Board, d: nat, r: Board, y: int, x: int)
    requires d < 4 && r == Rotations(b, d) && 0 <= y < SIZE && 0 <= x < SIZE - 1
    requires if At(r, y, x) == 0 then At(r, y, x + 1) != 0 else At(r, y, x) == At(r, y, x + 1)
    ensures Playable(b) && HasTile(b)
  {
    RotationsCell(b, d, y, x);
    RotationsCell(b, d, y, x + 1);
    SourcesSideBySide(d, y, x);
    Unpacked(b, Source(d, y, x), Source(d, y, x + 1));
  }

  /** The row, or column, is all tiles or all empty, and no two neighbouring tiles are equal. */
  predicate StuckRow(b: Board, y: int)
    requires 0 <= y < SIZE
  {
    && (forall x :: 0 <= x < SIZE ==> (At(b, y, x) == 0 <==> At(b, y, 0) == 0))
    && (forall x :: 0 <= x < SIZE - 1 && At(b, y, 0) != 0 ==> At(b, y, x) != At(b, y, x + 1))
  }

  predicate StuckColumn(b: Board, x: int)
    requires 0 <= x < SIZE
  {
    && (forall y :: 0 <= y < SIZE ==> (At(b, y, x) == 0 <==> At(b, 0, x) == 0))
    && (forall y :: 0 <= y < SIZE - 1 && At(b, 0, x) != 0 ==> At(b, y, x) != At(b, y + 1, x))
  }

  lemma RowStuck(b: Board, y: int)
    requires 0 <= y < SIZE && PackedRow(b, y) && PackedRow(Rotations(b, 2), SIZE - 1 - y)
    ensures StuckRow(b, y)
  {
    var r := Rotations(b, 2);
    forall x {:trigger At(r, SIZE - 1 - y, x)} | 0 <= x < SIZE
      ensures At(r, SIZE - 1 - y, x) == At(b, y, SIZE - 1 - x)
    {
      RotationsCell(b, 2, SIZE - 1 - y, x);
    }
    assert At(r, SIZE - 1 - y, 0) == At(b, y, 3) && At(r, SIZE - 1 - y, 1) == At(b, y, 2);
    assert At(r, SIZE - 1 - y, 2) == At(b, y, 1) && At(r, SIZE - 1 - y, 3) == At(b, y, 0);
  }

  /** A column is a row of the turned board. */
  lemma ColumnStuck(b: Board, x: int)
    requires 0 <= x < SIZE && PackedRow(Rotations(b, 1), x) && PackedRow(Rotations(b, 3), SIZE - 1 - x)
    ensures StuckColumn(b, x)
  {
    var r := Rotations(b, 1);
    assert Rotations(r, 2) == Rotations(b, 3) by { RotationsAdd(b, 1, 2); }
    RowStuck(r, x);
    forall y | 0 <= y < SIZE ensures At(r, x, SIZE - 1 - y) == At(b, y, x) { RotationsCell(b, 1, x, SIZE - 1 - y); }
    assert At(r, x, 0) == At(b, 3, x) && At(r, x, 1) == At(b, 2, x);
    assert At(r, x, 2) == At(b, 1, x) && At(r, x, 3) == At(b, 0, x);
  }

  lemma AllStuck(b: Board)
    requires forall d: nat :: d < 4 ==> MoveBoard(b, d) == b
    ensures forall k :: 0 <= k < SIZE ==> StuckRow(b, k) && StuckColumn(b, k)
  {
    forall d: nat, y | d < 4 && 0 <= y < SIZE ensures PackedRow(Rotations(b, d), y) {
      MoveChanges(b, d);
      SlideFixesBoard(Rotations(b, d));
      assert MoveBoard(b, d) == b;
    }
    assert Rotations(b, 0) == b;
    forall k | 0 <= k < SIZE ensures StuckRow(b, k) && StuckColumn(b, k) {
      assert PackedRow(Rotations(b, 0), k) && PackedRow(Rotations(b, 2), SIZE - 1 - k);
      assert PackedRow(Rotations(b, 1), k) && PackedRow(Rotations(b, 3), SIZE - 1 - k);
      RowStuck(b, k);
      ColumnStuck(b, k);
    }
  }

  /** One tile on a stuck board makes every cell a tile, since rows meet columns. */
  lemma StuckIsFull(b: Board)
    requires HasTile(b) && forall k :: 0 <= k < SIZE ==> StuckRow(b, k) && StuckColumn(b, k)
    ensures forall y, x :: 0 <= y < SIZE && 0 <= x < SIZE ==> At(b, y, x) != 0
  {
    var i :| 0 <= i < CELLS && b[i] != 0;
    var y0, x0 := i / SIZE, i % SIZE;
    assert At(b, y0, x0) != 0;
    assert At(b, y0, 0) != 0 by { assert StuckRow(b, y0); }
    assert At(b, 0, 0) != 0 by { assert StuckColumn(b, 0); }
    forall y, x | 0 <= y < SIZE && 0 <= x < SIZE ensures At(b, y, x) != 0 {
      assert StuckColumn(b, 0) && StuckRow(b, y);
      assert At(b, y, 0) != 0;
    }
  }

  lemma StuckNotPlayable(b: Board)
    requires forall d: nat :: d < 4 ==> MoveBoard(b, d) == b
    ensures !Playable(b) || !HasTile(b)
  {
    AllStuck(b);
    if HasTile(b) {
      StuckIsFull(b);
      forall y, x | 0 <= y < SIZE && 0 <= x < SIZE ensures !PlayableAt(b, y, x) {
        assert StuckRow(b, y) && StuckColumn(b, x) && At(b, y, 0) != 0 && At(b, 0, x) != 0;
      }
    }
  }

  /** `can_move` is right: on a board with a tile it finds something exactly when one of the four
      moves changes the board. */
  lemma CanMoveExact(b: Board)
    ensures (exists d: nat :: d < 4 && MoveBoard(b, d) != b) <==> Playable(b) && HasTile(b)
  {
    if d: nat :| d < 4 && MoveBoard(b, d) != b {
      CanMoveNeedsPlayable(b, d);
    } else {
      StuckNotPlayable(b);
    }
  }
}

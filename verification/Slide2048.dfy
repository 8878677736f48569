/** What one step of sliding a row, and of sliding the rows one by one, does to the board. */
module Slide2048 {
  import opened Game2048
  import opened Score2048

  /** Row r after its first x cells have been slid: the merged tiles, zeros, and the rest. */
  ghost function SlidUpTo(r: seq<int>, x: nat): seq<int>
    requires x <= |r|
  {
    SlideRow(r[..x]) + r[x..]
  }

  /** Does cell x of row r, when the first x are done, merge into the last tile? */
  ghost predicate Joins(r: seq<int>, x: nat)
    requires x < |r|
  {
    var t := Compact(r[..x]);
    r[x] != 0 && t != [] && !LastMerged(t) && Merge(t)[|Merge(t)| - 1] == r[x]
  }

  /** The number of tiles in the first x cells of row r after sliding. */
  ghost function Tail(r: seq<int>, x: nat): (n: nat)
    requires x <= |r|
    ensures n <= x
  {
    |Merge(Compact(r[..x]))|
  }

  lemma CompactNext(r: seq<int>, x: nat)
    requires x < |r|
    ensures Compact(r[..x+1]) == if r[x] == 0 then Compact(r[..x]) else Compact(r[..x]) + [r[x]]
  {
    assert r[..x+1][..x] == r[..x];
    assert Compact(r[..x]) + [] == Compact(r[..x]);
  }

  /** What cell x adds to the points and to the marks. */
  lemma NextGains(r: seq<int>, x: nat)
    requires x < |r|
    ensures var t, u := Compact(r[..x]), Compact(r[..x+1]);
            && Gains(u) == Gains(t) + (if Joins(r, x) then [2 * r[x]] else [])
            && (LastMerged(u) <==> if r[x] == 0 then LastMerged(t) else Joins(r, x))
            && Tail(r, x + 1) == Tail(r, x) + (if r[x] == 0 || Joins(r, x) then 0 else 1)
  {
    CompactNext(r, x);
    if r[x] != 0 { MergeSnoc(Compact(r[..x]), r[x]); }
  }

  /** Moving v across a gap of k zeros, and merging it into the tile before the gap. */
  lemma Shapes(m: seq<int>, k: nat, v: int, rest: seq<int>)
    ensures var row, x, n := (m + Zeros(k)) + ([v] + rest), |m| + k, |m|;
            && row[x := 0][n := v] == ((m + [v]) + Zeros(k)) + rest
            && (n > 0 ==> row[x := 0][n - 1 := 2 * v] == ((m[..n-1] + [2 * v]) + Zeros(k + 1)) + rest)
            && (v == 0 ==> row == (m + Zeros(k + 1)) + rest)
  {}

  lemma NextEmpty(r: seq<int>, x: nat)
    requires x < |r| && r[x] == 0
    ensures SlidUpTo(r, x + 1) == SlidUpTo(r, x)
  {
    CompactNext(r, x);
    Shapes(Merge(Compact(r[..x])), x - Tail(r, x), 0, r[x+1..]);
    assert r[x..] == [0] + r[x+1..];
  }

  lemma NextJoins(r: seq<int>, x: nat)
    requires x < |r| && Joins(r, x)
    ensures Tail(r, x) > 0 && SlidUpTo(r, x + 1) == SlidUpTo(r, x)[x := 0][Tail(r, x) - 1 := 2 * r[x]]
  {
    hide Merge, Compact;
    var m, k, v, rest := Merge(Compact(r[..x])), x - Tail(r, x), r[x], r[x+1..];
    CompactNext(r, x);
    MergeSnoc(Compact(r[..x]), v);
    Shapes(m, k, v, rest);
    assert r[x..] == [v] + rest;
    assert SlidUpTo(r, x) == (m + Zeros(k)) + ([v] + rest);
    assert SlidUpTo(r, x + 1) == ((m[..|m| - 1] + [2 * v]) + Zeros(k + 1)) + rest;
  }

  lemma PlacedLast(r: seq<int>, x: nat)
    requires x < |r| && r[x] != 0 && !Joins(r, x)
    ensures Merge(Compact(r[..x+1])) == Merge(Compact(r[..x])) + [r[x]]
  {
    hide Merge, Compact, Gains, LastMerged;
    CompactNext(r, x);
    MergeSnoc(Compact(r[..x]), r[x]);
  }

  lemma NextPlaced(r: seq<int>, x: nat)
    requires x < |r| && r[x] != 0 && !Joins(r, x)
    ensures SlidUpTo(r, x + 1) == SlidUpTo(r, x)[x := 0][Tail(r, x) := r[x]]
  {
    PlacedLast(r, x);
    hide Merge, Compact, Joins;
    var m, k, v, rest := Merge(Compact(r[..x])), x - Tail(r, x), r[x], r[x+1..];
    Shapes(m, k, v, rest);
    assert r[x..] == [v] + rest;
    assert SlidUpTo(r, x) == (m + Zeros(k)) + ([v] + rest);
    assert SlidUpTo(r, x + 1) == ((m + [v]) + Zeros(k)) + rest;
  }

  /** Cell x merges into the last tile, or becomes the next one, or is empty. */
  lemma NextCell(r: seq<int>, x: nat)
    requires x < |r|
    ensures var n := Tail(r, x);
            && (r[x] == 0 ==> SlidUpTo(r, x + 1) == SlidUpTo(r, x))
            && (Joins(r, x) ==> n > 0 && SlidUpTo(r, x + 1) == SlidUpTo(r, x)[x := 0][n - 1 := 2 * r[x]])
            && (r[x] != 0 && !Joins(r, x) ==> SlidUpTo(r, x + 1) == SlidUpTo(r, x)[x := 0][n := r[x]])
  {
    if r[x] == 0 { NextEmpty(r, x); } else if Joins(r, x) { NextJoins(r, x); } else { NextPlaced(r, x); }
  }

  /** Has the slide of the first x cells moved anything? */
  ghost predicate MovedBy(r: seq<int>, x: nat)
    requires x <= |r|
  {
    SlideRow(r[..x]) != r[..x]
  }

  /** A tile that merges or crosses a gap changes the row for good; one that stays put, or an
      empty cell, changes nothing. */
  lemma MovedNext(r: seq<int>, x: nat)
    requires x < |r|
    ensures MovedBy(r, x + 1) <==> MovedBy(r, x) || Joins(r, x) || (r[x] != 0 && Tail(r, x) != x)
  {
    hide Merge, Compact, Zeros;
    var a, b := SlideRow(r[..x]), SlideRow(r[..x+1]);
    NextCell(r, x);
    NextGains(r, x);
    assert r[..x+1] == r[..x] + [r[x]];
    assert SlidUpTo(r, x)[..x] == a && SlidUpTo(r, x + 1)[..x+1] == b;
    FullRowStays(r[..x]);
    if r[x] == 0 {
      assert b == a + [0];
    } else if Joins(r, x) || Tail(r, x) < x {
      assert b[x] == 0;
    } else {
      assert a == r[..x];
    }
  }

  /** A row that loses no cell by sliding has not moved. */
  lemma FullRowStays(r: seq<int>)
    ensures |Merge(Compact(r))| == |r| ==> SlideRow(r) == r
  {
    if |Merge(Compact(r))| == |r| {
      MergeShrinks(Compact(r));
      CompactFull(r);
    }
  }

  lemma {:induction false} CompactFull(r: seq<int>)
    requires |Compact(r)| == |r|
    ensures Compact(r) == r
  {
    if r != [] {
      CompactFull(r[..|r|-1]);
      assert r == r[..|r|-1] + [r[|r|-1]];
    }
  }


  /** How many of the first n cells are empty. */
  function EmptyBefore(b: Board, n: nat): (count: nat)
    requires n <= CELLS
    ensures count <= n
  {
    if n == 0 then 0 else EmptyBefore(b, n - 1) + if b[n - 1] == 0 then 1 else 0
  }

  /** Cell i is empty, and k empty cells come before it. */
  predicate IsEmptyCell(b: Board, i: nat, k: nat) { i < CELLS && b[i] == 0 && EmptyBefore(b, i) == k }

  lemma {:induction false} NoneEmpty(b: Board, n: nat)
    requires n <= CELLS
    ensures EmptyBefore(b, n) == 0 <==> forall i :: 0 <= i < n ==> b[i] != 0
  {
    if n > 0 { NoneEmpty(b, n - 1); }
  }

  /** A 2 or a 4 has appeared on the empty cell that was drawn. */
  ghost predicate Spawned(m: Board, now: Board, pick: nat, four: bool) {
    exists i: nat :: i < CELLS && m[i] == 0 && EmptyBefore(m, CELLS) > 0
                     && EmptyBefore(m, i) == pick % EmptyBefore(m, CELLS) && now == m[i := if four then 4 else 2]
  }

  lemma EmptySums(b: Board)
    requires forall i :: 0 <= i < CELLS ==> b[i] == 0
    ensures Cells(b) && SumWorth(b) == 0 && Sum(b) == 0
  {
    assert b == Zeros(CELLS);
    SumZeros(CELLS);
  }

  /** Two tiles leave an empty cell. */
  lemma EmptyCell(b: Board, spots: seq<nat>)
    requires |spots| <= 2 && forall i :: 0 <= i < CELLS && b[i] != 0 ==> i in spots
    ensures exists k: nat :: k < CELLS && b[k] == 0
  {
    if b[0] != 0 && b[1] != 0 { assert 0 in spots && 1 in spots && 2 !in spots; assert b[2] == 0; }
  }

  lemma EmptyIsPlayable(b: Board)
    requires exists k: nat :: k < CELLS && b[k] == 0
    ensures Playable(b)
  {
    var k: nat :| k < CELLS && b[k] == 0;
    assert PlayableAt(b, k / SIZE, k % SIZE);
  }

  /** A move that changes the board leaves an empty cell for the new tile. */
  lemma MoveLeavesRoom(b: Board, d: nat)
    requires d < 4 && MoveBoard(b, d) != b
    ensures exists k :: 0 <= k < CELLS && MoveBoard(b, d)[k] == 0
  {
    hide Merge, Compact, Rotate, SlideLeft;
    MoveChanges(b, d);
    var r, m := Rotations(b, d), MoveBoard(b, d);
    var s := SlideLeft(r);
    if forall y: nat :: y < SIZE ==> SlideRow(Row(r, y)) == Row(r, y) {
      forall y: nat | y < SIZE ensures Row(s, y) == Row(r, y) { SlideLeftRow(r, y); }
      RowsExt(s, r);
    }
    var y: nat :| y < SIZE && SlideRow(Row(r, y)) != Row(r, y);
    FullRowStays(Row(r, y));
    SlideLeftRow(r, y);
    assert At(s, y, SIZE - 1) == SlideRow(Row(r, y))[SIZE - 1] == 0;
    TurnBack(s, d);
    RotationsCell(m, d, y, SIZE - 1);
    var (y0, x0) := Source(d, y, SIZE - 1);
    assert m[SIZE * y0 + x0] == 0;
  }

  /** All four rows slid is the board slid. */
  lemma SlidAllRows(b: Board, s: Board)
    requires forall k: nat :: k < SIZE ==> Row(s, k) == SlideRow(Row(b, k))
    ensures s == SlideLeft(b)
    ensures s != b <==> exists k: nat :: k < SIZE && SlideRow(Row(b, k)) != Row(b, k)
  {
    forall k: nat | k < SIZE ensures Row(SlideLeft(b), k) == Row(s, k) { SlideLeftRow(b, k); }
    RowsExt(s, SlideLeft(b));
    if forall k: nat :: k < SIZE ==> SlideRow(Row(b, k)) == Row(b, k) { RowsExt(s, b); }
  }

  lemma Turned(b: Board, temp: Board)
    requires forall j, i :: 0 <= j < SIZE && 0 <= i < SIZE ==> temp[SIZE * i + (SIZE - 1 - j)] == At(b, j, i)
    ensures temp == Rotate(b)
  {
    forall y, x | 0 <= y < SIZE && 0 <= x < SIZE ensures At(temp, y, x) == At(Rotate(b), y, x) {
      RotateCell(b, y, x);
      assert At(b, SIZE - 1 - x, y) == temp[SIZE * y + (SIZE - 1 - (SIZE - 1 - x))];
    }
    BoardExt(temp, Rotate(b));
  }

  /** Is one of the tiles created a 2048? */
  ghost predicate Reaches2048(t: seq<int>) { t != [] && (t[0] == 2048 || Reaches2048(t[1..])) }

  lemma {:induction false} ReachesIn(t: seq<int>)
    ensures Reaches2048(t) <==> 2048 in t
  {
    if t != [] { ReachesIn(t[1..]); }
  }

  lemma {:induction false} ReachesAppend(s: seq<int>, t: seq<int>)
    ensures Reaches2048(s + t) <==> Reaches2048(s) || Reaches2048(t)
  {
    ReachesIn(s);
    ReachesIn(t);
    ReachesIn(s + t);
  }

  /** The first n rows of b have been slid, the others are as they were. */
  ghost predicate SlidSoFar(b: Board, now: Board, n: nat) {
    forall k: nat :: k < SIZE ==> Row(now, k) == if k < n then SlideRow(Row(b, k)) else Row(b, k)
  }

  ghost predicate MovedSoFar(b: Board, n: nat)
    requires n <= SIZE
  {
    exists k: nat :: k < n && SlideRow(Row(b, k)) != Row(b, k)
  }

  lemma RowDone(b: Board, before: Board, now: Board, y: nat)
    requires y < SIZE && SlidSoFar(b, before, y)
    requires Row(now, y) == SlideRow(Row(before, y))
    requires forall k: nat :: k < SIZE && k != y ==> Row(now, k) == Row(before, k)
    ensures Row(before, y) == Row(b, y) && SlidSoFar(b, now, y + 1)
    ensures MovedSoFar(b, y + 1) <==> MovedSoFar(b, y) || SlideRow(Row(b, y)) != Row(b, y)
  {
    if MovedSoFar(b, y + 1) && SlideRow(Row(b, y)) == Row(b, y) {
      var k: nat :| k < y + 1 && SlideRow(Row(b, k)) != Row(b, k);
      assert k < y;
    }
  }

  /** After the first y rows: the board, the score, the flag for 2048 and what has moved. */
  ghost predicate Progress(b: Board, now: Board, y: nat, score0: int, score: int, won0: bool, won: bool, moved: bool)
    requires y <= SIZE
  {
    && SlidSoFar(b, now, y)
    && score == score0 + Sum(RowGains(b, y))
    && (won <==> won0 || Reaches2048(RowGains(b, y)))
    && (moved <==> MovedSoFar(b, y))
  }

  lemma NothingSlid(b: Board, score: int, won: bool)
    ensures Progress(b, b, 0, score, score, won, won, false)
  {}

  /** Row y slid, and what that adds. */
  ghost predicate RowSlides(before: Board, now: Board, y: nat, points: int, score: int, hadWon: bool, won: bool,
                            moved: bool)
    requires y < SIZE
  {
    var r := Row(before, y);
    && Row(now, y) == SlideRow(r)
    && (forall k: nat :: k < SIZE && k != y ==> Row(now, k) == Row(before, k))
    && score == points + Sum(Gains(Compact(r)))
    && (won <==> hadWon || Reaches2048(Gains(Compact(r))))
    && (moved <==> SlideRow(r) != r)
  }

  lemma RowSlid(b: Board, before: Board, now: Board, y: nat, score0: int, points: int, score: int,
                won0: bool, hadWon: bool, won: bool, hadMoved: bool, moves: bool, moved: bool)
    requires y < SIZE && Progress(b, before, y, score0, points, won0, hadWon, hadMoved)
    requires RowSlides(before, now, y, points, score, hadWon, won, moves)
    requires moved <==> hadMoved || moves
    ensures Progress(b, now, y + 1, score0, score, won0, won, moved)
  {
    hide SlideRow, Merge, Compact, Gains, Row, Sum, SumWorth, RowGains, Reaches2048, SlidSoFar, MovedSoFar;
    RowDone(b, before, now, y);
    NextRowGains(b, y);
    var total, gains := RowGains(b, y), Gains(Compact(Row(b, y)));
    SumAppend(total, gains);
    ReachesAppend(total, gains);
  }

  lemma NextRowGains(b: Board, y: nat)
    requires y < SIZE
    ensures RowGains(b, y + 1) == RowGains(b, y) + Gains(Compact(Row(b, y)))
  {}

  lemma AllSlid(b: Board, now: Board, y: nat, score0: int, score: int, won0: bool, won: bool, moved: bool)
    requires y == SIZE && Progress(b, now, y, score0, score, won0, won, moved)
    ensures now == SlideLeft(b) && score == score0 + Sum(SlideGains(b))
    ensures (won <==> won0 || Reaches2048(SlideGains(b))) && (moved <==> now != b)
  {
    SlidAllRows(b, now);
  }

  /** One step of the loop on the board: an empty cell, a merge into cell n - 1, or a move to cell n. */
  lemma CellStep(b: Board, r: seq<int>, y: nat, x: nat)
    requires y < SIZE && 1 <= x < SIZE == |r| && Row(b, y) == SlidUpTo(r, x)
    ensures var n := Tail(r, x);
            && b[SIZE * y + x] == r[x]
            && (r[x] == 0 || (!Joins(r, x) && n == x) ==> StoredRow(b, b, r, y, x))
            && (Joins(r, x) ==> n > 0 && StoredRow(b, b[SIZE * y + n - 1 := 2 * r[x]][SIZE * y + x := 0], r, y, x))
            && (r[x] != 0 && !Joins(r, x) && n < x ==>
                  StoredRow(b, b[SIZE * y + n := r[x]][SIZE * y + x := 0], r, y, x))
            && (forall i :: n <= i < x ==> Row(b, y)[i] == 0)
            && (n > 0 ==> Row(b, y)[n - 1] != 0)
  {
    hide SlideRow, Merge, Compact, SlidUpTo, Zeros, Joins, Tail;
    var n := Tail(r, x);
    RowShape(r, x);
    NextCell(r, x);
    if Joins(r, x) { RowOfUpdates(b, y, x, n - 1, 2 * r[x]); }
    if n < x { RowOfUpdates(b, y, x, n, r[x]); }
  }

  /** c is b with row y slid one cell further. */
  ghost predicate StoredRow(b: Board, c: Board, r: seq<int>, y: nat, x: nat)
    requires y < SIZE && x < |r|
  {
    Row(c, y) == SlidUpTo(r, x + 1) && forall k: nat :: k < SIZE && k != y ==> Row(c, k) == Row(b, k)
  }

  /** The code's test for merging. */
  lemma CellJoins(b: Board, merged: seq<bool>, r: seq<int>, y: nat, x: nat)
    requires y < SIZE && 1 <= x < SIZE == |r| && Row(b, y) == SlidUpTo(r, x) && Marks(merged, r, x) && r[x] != 0
    ensures var n := Tail(r, x);
            Joins(r, x) <==> n > 0 && b[SIZE * y + n - 1] == r[x] && !merged[n - 1]
  {
    RowShape(r, x);
    var n := Tail(r, x);
    if n > 0 { assert b[SIZE * y + (n - 1)] == Row(b, y)[n - 1]; }
  }

  lemma MarksNext(merged: seq<bool>, r: seq<int>, x: nat)
    requires 1 <= x < |r| && Marks(merged, r, x)
    ensures Joins(r, x) ==> Tail(r, x) > 0 && Marks(merged[Tail(r, x) - 1 := true], r, x + 1)
    ensures !Joins(r, x) ==> Marks(merged, r, x + 1)
  {
    NextGains(r, x);
    RowShape(r, x);
  }

  /** Two stores into one row. */
  lemma RowOfUpdates(b: Board, y: nat, x: nat, x': nat, v: int)
    requires y < SIZE && x' < x < SIZE
    ensures var c: Board := b[SIZE * y + x' := v][SIZE * y + x := 0];
            Row(c, y) == Row(b, y)[x := 0][x' := v]
            && forall k: nat :: k < SIZE && k != y ==> Row(c, k) == Row(b, k)
  {}

  /** The `merged` flags: clear beyond the last tile, and right for the last tile. */
  ghost predicate Marks(merged: seq<bool>, r: seq<int>, x: nat)
    requires x <= |r|
  {
    && |merged| == |r|
    && (forall i :: Tail(r, x) <= i < |r| ==> !merged[i])
    && (Tail(r, x) > 0 ==> (merged[Tail(r, x) - 1] <==> LastMerged(Compact(r[..x]))))
  }

  lemma GainsNext(r: seq<int>, x: nat)
    requires x < |r|
    ensures Sum(Gains(Compact(r[..x+1]))) == Sum(Gains(Compact(r[..x]))) + if Joins(r, x) then 2 * r[x] else 0
    ensures Reaches2048(Gains(Compact(r[..x+1]))) <==>
              Reaches2048(Gains(Compact(r[..x]))) || (Joins(r, x) && 2 * r[x] == 2048)
  {
    NextGains(r, x);
    var g := Gains(Compact(r[..x]));
    if Joins(r, x) {
      SumAppend(g, [2 * r[x]]);
      ReachesAppend(g, [2 * r[x]]);
      SumOne(2 * r[x]);
    } else {
      assert g + [] == g;
    }
  }

  lemma FirstCell(r: seq<int>)
    requires |r| == SIZE
    ensures SlidUpTo(r, 1) == r && Gains(Compact(r[..1])) == [] && !MovedBy(r, 1) && !LastMerged(Compact(r[..1]))
  {
    assert r[..1][..0] == [];
    assert Compact(r[..1]) == if r[0] == 0 then [] else [r[0]];
  }

  /** The first x cells of a half-slid row are Tail(r, x) tiles and zeros; the others are untouched. */
  lemma RowShape(r: seq<int>, x: nat)
    requires 1 <= x < |r|
    ensures var row, m := SlidUpTo(r, x), Merge(Compact(r[..x]));
            && |row| == |r| && row[x] == r[x]
            && (forall i :: 0 <= i < Tail(r, x) ==> row[i] == m[i] && row[i] != 0)
            && (forall i :: Tail(r, x) <= i < x ==> row[i] == 0)
            && (Compact(r[..x]) == [] <==> Tail(r, x) == 0)
  {
    MergeNonZero(Compact(r[..x]));
  }
}

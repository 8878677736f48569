/** The score of 2048 as a potential of the board. */
module Score2048 {
  import opened Bits
  import opened Game2048

  /** A tile 2^k is worth (k - 1) * 2^k: the points earned by building it from tiles of value 2. */
  ghost predicate IsTile(v: int) { exists k: nat :: k >= 1 && v == Pow2(k) }

  ghost predicate IsCell(v: int) { v == 0 || IsTile(v) }

  function Worth(v: int): int {
    if v <= 2 || v % 2 == 1 then 0 else 2 * Worth(v / 2) + v
  }

  lemma {:induction false} WorthOfTile(k: nat)
    requires k >= 1
    ensures Worth(Pow2(k)) == (k - 1) * Pow2(k)
  {
    if k > 1 {
      WorthOfTile(k - 1);
      assert Pow2(k) / 2 == Pow2(k - 1) && Pow2(k) > 2;
      assert 2 * ((k - 2) * Pow2(k - 1)) == (k - 2) * Pow2(k);
    }
  }

  /** Doubling a tile: the new tile is worth both old ones and its own value. */
  lemma WorthOfDouble(v: int)
    requires IsTile(v)
    ensures IsTile(2 * v) && 2 * v != 0
    ensures Worth(2 * v) == Worth(v) + Worth(v) + 2 * v
  {
    var k: nat :| k >= 1 && v == Pow2(k);
    assert 2 * v == Pow2(k + 1) && v >= 2;
  }

  function Sum(s: seq<int>): int { if s == [] then 0 else s[0] + Sum(s[1..]) }

  function SumWorth(s: seq<int>): int { if s == [] then 0 else Worth(s[0]) + SumWorth(s[1..]) }

  lemma {:induction false} SumAppend(s: seq<int>, t: seq<int>)
    ensures Sum(s + t) == Sum(s) + Sum(t) && SumWorth(s + t) == SumWorth(s) + SumWorth(t)
  {
    if s == [] {
      assert s + t == t;
    } else {
      SumAppend(s[1..], t);
      assert (s + t)[1..] == s[1..] + t;
    }
  }

  lemma {:induction false} SumZeros(n: nat)
    ensures Sum(Zeros(n)) == 0 && SumWorth(Zeros(n)) == 0
  {
    if n > 0 {
      SumZeros(n - 1);
      assert Zeros(n)[1..] == Zeros(n - 1);
    }
  }

  ghost predicate Cells(s: seq<int>) { forall i :: 0 <= i < |s| ==> IsCell(s[i]) }
  ghost predicate Tiles(s: seq<int>) { forall i :: 0 <= i < |s| ==> IsTile(s[i]) }

  lemma SumOne(v: int)
    ensures Sum([v]) == v && SumWorth([v]) == Worth(v)
  {
    assert [v][1..] == [];
  }

  lemma {:induction false} CompactSums(r: seq<int>)
    ensures Sum(Compact(r)) == Sum(r) && SumWorth(Compact(r)) == SumWorth(r)
  {
    if r != [] {
      var u, v := r[..|r|-1], r[|r|-1];
      assert r == u + [v];
      CompactSums(u);
      SumOne(v);
      SumAppend(u, [v]);
      if v == 0 {
        assert Compact(r) == Compact(u);
      } else {
        SumAppend(Compact(u), [v]);
      }
    }
  }

  lemma {:induction false} CompactTiles(r: seq<int>)
    requires Cells(r)
    ensures Tiles(Compact(r))
  {
    if r != [] { CompactTiles(r[..|r|-1]); }
  }

  /** Merging keeps the sum of the tiles, and raises their worth by the points scored. */
  lemma {:induction false} MergeSums(t: seq<int>)
    requires Tiles(t)
    ensures Tiles(Merge(t))
    ensures Sum(Merge(t)) == Sum(t)
    ensures SumWorth(Merge(t)) == SumWorth(t) + Sum(Gains(t))
  {
    if |t| >= 2 {
      if t[0] == t[1] {
        MergeSums(t[2..]);
        WorthOfDouble(t[0]);
        assert t[1..][1..] == t[2..];
        assert Merge(t)[1..] == Merge(t[2..]) && Gains(t)[1..] == Gains(t[2..]);
      } else {
        MergeSums(t[1..]);
        assert Merge(t)[1..] == Merge(t[1..]);
      }
    }
  }

  /** One slid row: the same sum, and the points as added worth. */
  lemma SlideRowSums(r: seq<int>)
    requires Cells(r)
    ensures Cells(SlideRow(r))
    ensures Sum(SlideRow(r)) == Sum(r)
    ensures SumWorth(SlideRow(r)) == SumWorth(r) + Sum(Gains(Compact(r)))
  {
    var t := Compact(r);
    var m := Merge(t);
    CompactSums(r);
    CompactTiles(r);
    MergeSums(t);
    SumAppend(m, Zeros(|r| - |m|));
    SumZeros(|r| - |m|);
  }

  // ---------- whole boards ----------

  lemma SumOfRows(b: Board)
    ensures Sum(b) == Sum(Row(b, 0)) + Sum(Row(b, 1)) + Sum(Row(b, 2)) + Sum(Row(b, 3))
    ensures SumWorth(b) == SumWorth(Row(b, 0)) + SumWorth(Row(b, 1)) + SumWorth(Row(b, 2)) + SumWorth(Row(b, 3))
  {
    SumAppend(Row(b, 0), Row(b, 1));
    SumAppend(Row(b, 2), Row(b, 3));
    SumAppend(Row(b, 0) + Row(b, 1), Row(b, 2) + Row(b, 3));
    assert b == (Row(b, 0) + Row(b, 1)) + (Row(b, 2) + Row(b, 3));
  }

  lemma GainsOfRows(b: Board)
    ensures Sum(SlideGains(b)) == Sum(Gains(Compact(Row(b, 0)))) + Sum(Gains(Compact(Row(b, 1))))
                                      + Sum(Gains(Compact(Row(b, 2)))) + Sum(Gains(Compact(Row(b, 3))))
  {
    hide Gains, Compact, Row, SumWorth;
    SumAppend(RowGains(b, 0), Gains(Compact(Row(b, 0))));
    SumAppend(RowGains(b, 1), Gains(Compact(Row(b, 1))));
    SumAppend(RowGains(b, 2), Gains(Compact(Row(b, 2))));
    SumAppend(RowGains(b, 3), Gains(Compact(Row(b, 3))));
  }

  lemma SlideSums(b: Board)
    requires Cells(b)
    ensures Sum(SlideLeft(b)) == Sum(b)
    ensures SumWorth(SlideLeft(b)) == SumWorth(b) + Sum(SlideGains(b))
  {
    SlidRowSums(b, 0); SlidRowSums(b, 1); SlidRowSums(b, 2); SlidRowSums(b, 3);
    SumOfRows(b);
    SumOfRows(SlideLeft(b));
    GainsOfRows(b);
  }

  lemma SlidRowSums(b: Board, y: nat)
    requires Cells(b) && y < SIZE
    ensures var r, s := Row(b, y), Row(SlideLeft(b), y);
            Cells(s) && Sum(s) == Sum(r) && SumWorth(s) == SumWorth(r) + Sum(Gains(Compact(r)))
  {
    hide SlideRow, SlideLeft, Compact, Gains, Sum, SumWorth;
    assert Cells(Row(b, y)) by { assert forall i :: 0 <= i < SIZE ==> Row(b, y)[i] == b[SIZE * y + i]; }
    SlideLeftRow(b, y);
    SlideRowSums(Row(b, y));
  }

  lemma SlideCells(b: Board)
    requires Cells(b)
    ensures Cells(SlideLeft(b))
  {
    hide SlideRow, Compact, Gains, Sum, SumWorth;
    var s := SlideLeft(b);
    forall i | 0 <= i < CELLS ensures IsCell(s[i]) {
      SlidRowSums(b, i / SIZE);
      assert Row(s, i / SIZE)[i % SIZE] == s[i];
    }
  }

  lemma SumOfFour(r: seq<int>)
    requires |r| == 4
    ensures Sum(r) == r[0] + r[1] + r[2] + r[3]
    ensures SumWorth(r) == Worth(r[0]) + Worth(r[1]) + Worth(r[2]) + Worth(r[3])
  {
    assert r == [r[0]] + ([r[1]] + ([r[2]] + [r[3]]));
    SumOne(r[0]); SumOne(r[1]); SumOne(r[2]); SumOne(r[3]);
    SumAppend([r[2]], [r[3]]);
    SumAppend([r[1]], [r[2]] + [r[3]]);
    SumAppend([r[0]], [r[1]] + ([r[2]] + [r[3]]));
  }

  lemma SumOfCells(b: Board)
    ensures Sum(b) == b[0] + b[1] + b[2] + b[3] + b[4] + b[5] + b[6] + b[7]
                      + b[8] + b[9] + b[10] + b[11] + b[12] + b[13] + b[14] + b[15]
    ensures SumWorth(b) == Worth(b[0]) + Worth(b[1]) + Worth(b[2]) + Worth(b[3]) + Worth(b[4]) + Worth(b[5])
                           + Worth(b[6]) + Worth(b[7]) + Worth(b[8]) + Worth(b[9]) + Worth(b[10]) + Worth(b[11])
                           + Worth(b[12]) + Worth(b[13]) + Worth(b[14]) + Worth(b[15])
  {
    SumOfRows(b);
    SumOfFour(Row(b, 0)); SumOfFour(Row(b, 1)); SumOfFour(Row(b, 2)); SumOfFour(Row(b, 3));
  }

  lemma RotateSums(b: Board)
    ensures Sum(Rotate(b)) == Sum(b) && SumWorth(Rotate(b)) == SumWorth(b)
  {
    SumOfCells(b);
    SumOfCells(Rotate(b));
  }

  lemma {:induction false} RotationsSums(b: Board, n: nat)
    ensures Sum(Rotations(b, n)) == Sum(b) && SumWorth(Rotations(b, n)) == SumWorth(b)
  {
    if n > 0 {
      var p := Rotations(b, n - 1);
      RotationsSums(b, n - 1);
      RotateSums(p);
      SameSums(Rotations(b, n), Rotate(p));
    }
  }

  lemma SameSums(b: Board, c: Board)
    requires b == c
    ensures Sum(b) == Sum(c) && SumWorth(b) == SumWorth(c)
  {}

  lemma {:induction false} RotationsCells(b: Board, n: nat)
    requires Cells(b)
    ensures Cells(Rotations(b, n))
  {
    if n > 0 {
      RotationsCells(b, n - 1);
      RotateCells(Rotations(b, n - 1));
    }
  }

  lemma RotateCells(b: Board)
    requires Cells(b)
    ensures Cells(Rotate(b))
  {}

  /** The points of move d. */
  function MoveGains(b: Board, d: nat): seq<int>
    requires d < 4
  {
    SlideGains(Rotations(b, d))
  }

  /** Every move keeps the sum of all tiles, and scores exactly the worth it adds to the board. */
  lemma MoveSums(b: Board, d: nat)
    requires d < 4 && Cells(b)
    ensures Cells(MoveBoard(b, d)) && Sum(MoveBoard(b, d)) == Sum(b)
    ensures SumWorth(MoveBoard(b, d)) == SumWorth(b) + Sum(MoveGains(b, d))
  {
    RotationsSums(b, d);
    RotationsCells(b, d);
    SlideSums(Rotations(b, d));
    SlideCells(Rotations(b, d));
    RotationsSums(SlideLeft(Rotations(b, d)), (4 - d) % 4);
    RotationsCells(SlideLeft(Rotations(b, d)), (4 - d) % 4);
  }

  /** Placing a tile on an empty cell: a 2 is worth nothing, a 4 is worth 4. */
  lemma SpawnSums(b: Board, i: nat, v: int)
    requires i < CELLS && b[i] == 0 && (v == 2 || v == 4) && Cells(b)
    ensures Cells(b[i := v]) && Sum(b[i := v]) == Sum(b) + v
    ensures SumWorth(b[i := v]) == SumWorth(b) + if v == 4 then 4 else 0
  {
    assert b == b[..i] + ([0] + b[i+1..]);
    assert b[i := v] == b[..i] + ([v] + b[i+1..]);
    SumAppend([0], b[i+1..]);
    SumAppend([v], b[i+1..]);
    SumAppend(b[..i], [0] + b[i+1..]);
    SumAppend(b[..i], [v] + b[i+1..]);
    SumOne(0);
    SumOne(v);
    assert Worth(4) == 2 * Worth(2) + 4;
    assert IsTile(v) by { assert v == Pow2(1) || v == Pow2(2); }
  }

  // ---------- winning ----------

  /** Some tile is at least 2048. */
  ghost predicate Big(s: seq<int>) { exists i :: 0 <= i < |s| && s[i] >= 2048 }

  lemma BigCons(v: int, s: seq<int>)
    ensures Big([v] + s) <==> v >= 2048 || Big(s)
  {
    if Big(s) {
      var i :| 0 <= i < |s| && s[i] >= 2048;
      assert ([v] + s)[i + 1] == s[i];
    }
    if v >= 2048 { assert ([v] + s)[0] >= 2048; }
  }

  lemma {:induction false} BigAppend(s: seq<int>, t: seq<int>)
    ensures Big(s + t) <==> Big(s) || Big(t)
  {
    if s == [] {
      assert s + t == t;
    } else {
      BigAppend(s[1..], t);
      BigCons(s[0], s[1..] + t);
      BigCons(s[0], s[1..]);
      assert s + t == [s[0]] + (s[1..] + t) && s == [s[0]] + s[1..];
    }
  }

  /** Doubling a tile gives one of at least 2048 exactly when it gives 2048, or the tile was that big. */
  lemma DoubleBig(v: int)
    requires IsTile(v)
    ensures 2 * v >= 2048 <==> 2 * v == 2048 || v >= 2048
  {
    var k: nat :| k >= 1 && v == Pow2(k);
    Pow2Values();
    Pow2Add(9, 1);
    if k < 10 { Pow2Monotone(k, 9); }
    if k > 10 {
      Pow2Add(10, 1);
      Pow2Monotone(11, k);
    }
  }

  /** Merging makes a tile of at least 2048 exactly when there was one, or a 2048 is created. */
  lemma {:induction false} MergeBig(t: seq<int>)
    requires Tiles(t)
    ensures Big(Merge(t)) <==> Big(t) || 2048 in Gains(t)
  {
    if |t| >= 2 {
      assert t == [t[0]] + ([t[1]] + t[2..]) && t[1..] == [t[1]] + t[2..];
      BigCons(t[0], t[1..]);
      if t[0] == t[1] {
        MergeBig(t[2..]);
        DoubleBig(t[0]);
        BigCons(t[1], t[2..]);
        BigCons(2 * t[0], Merge(t[2..]));
      } else {
        MergeBig(t[1..]);
        BigCons(t[0], Merge(t[1..]));
      }
    }
  }

  lemma {:induction false} CompactBig(r: seq<int>)
    ensures Big(Compact(r)) <==> Big(r)
  {
    if r != [] {
      var u, v := r[..|r|-1], r[|r|-1];
      CompactBig(u);
      assert r == u + [v];
      BigAppend(u, [v]);
      BigAppend(Compact(u), [v]);
      assert Compact(u) + [] == Compact(u);
      BigOne(v);
    }
  }

  lemma BigOne(v: int)
    ensures Big([v]) <==> v >= 2048
  {
    if v >= 2048 { assert [v][0] >= 2048; }
  }

  lemma SlideRowBig(r: seq<int>)
    requires Cells(r)
    ensures Big(SlideRow(r)) <==> Big(r) || 2048 in Gains(Compact(r))
  {
    var m := Merge(Compact(r));
    CompactBig(r);
    CompactTiles(r);
    MergeBig(Compact(r));
    BigAppend(m, Zeros(|r| - |m|));
  }

  lemma BigOfRows(b: Board)
    ensures Big(b) <==> Big(Row(b, 0)) || Big(Row(b, 1)) || Big(Row(b, 2)) || Big(Row(b, 3))
  {
    BigAppend(Row(b, 0), Row(b, 1));
    BigAppend(Row(b, 2), Row(b, 3));
    BigAppend(Row(b, 0) + Row(b, 1), Row(b, 2) + Row(b, 3));
    assert b == (Row(b, 0) + Row(b, 1)) + (Row(b, 2) + Row(b, 3));
  }

  lemma SlidRowBig(b: Board, y: nat)
    requires Cells(b) && y < SIZE
    ensures Big(Row(SlideLeft(b), y)) <==> Big(Row(b, y)) || 2048 in Gains(Compact(Row(b, y)))
  {
    hide SlideRow, SlideLeft, Compact, Gains, Big;
    assert Cells(Row(b, y)) by { assert forall i :: 0 <= i < SIZE ==> Row(b, y)[i] == b[SIZE * y + i]; }
    SlideLeftRow(b, y);
    SlideRowBig(Row(b, y));
  }

  lemma SlideBig(b: Board)
    requires Cells(b)
    ensures Big(SlideLeft(b)) <==> Big(b) || 2048 in SlideGains(b)
  {
    hide Gains, Compact, Row, Big, SlideRow, SlideLeft;
    SlidRowBig(b, 0); SlidRowBig(b, 1); SlidRowBig(b, 2); SlidRowBig(b, 3);
    BigOfRows(b);
    BigOfRows(SlideLeft(b));
    assert SlideGains(b) == RowGains(b, 3) + Gains(Compact(Row(b, 3)));
    assert RowGains(b, 3) == RowGains(b, 2) + Gains(Compact(Row(b, 2)));
    assert RowGains(b, 2) == RowGains(b, 1) + Gains(Compact(Row(b, 1)));
    assert RowGains(b, 1) == RowGains(b, 0) + Gains(Compact(Row(b, 0)));
  }

  lemma RotateBig(b: Board)
    ensures Big(Rotate(b)) <==> Big(b)
  {
    if Big(b) {
      var i :| 0 <= i < CELLS && b[i] >= 2048;
      assert Rotate(b)[SIZE * (i % SIZE) + (SIZE - 1 - i / SIZE)] == b[i];
    }
  }

  lemma {:induction false} RotationsBig(b: Board, n: nat)
    ensures Big(Rotations(b, n)) <==> Big(b)
  {
    if n > 0 {
      RotationsBig(b, n - 1);
      RotateBig(Rotations(b, n - 1));
    }
  }

  /** After a move some tile is at least 2048 exactly when one was before, or the move creates a 2048. */
  lemma MoveBig(b: Board, d: nat)
    requires d < 4 && Cells(b)
    ensures Big(MoveBoard(b, d)) <==> Big(b) || 2048 in MoveGains(b, d)
  {
    RotationsBig(b, d);
    RotationsCells(b, d);
    SlideBig(Rotations(b, d));
    RotationsBig(SlideLeft(Rotations(b, d)), (4 - d) % 4);
  }

  lemma SpawnBig(b: Board, i: nat, v: int)
    requires i < CELLS && b[i] == 0 && (v == 2 || v == 4)
    ensures Big(b[i := v]) <==> Big(b)
  {
    if Big(b) {
      var k :| 0 <= k < CELLS && b[k] >= 2048;
      assert b[i := v][k] == b[k];
    }
  }
}

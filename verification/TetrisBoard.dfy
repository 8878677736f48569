/** The board of Tetris as rows: full rows, the rows that stay, and the number of filled cells. */
module TetrisBoard {
  const BOARD_WIDTH: nat := 10
  const BOARD_HEIGHT: nat := 20
  const CELLS: nat := BOARD_WIDTH * BOARD_HEIGHT

  type Board = b: seq<int> | |b| == CELLS witness seq(CELLS, i => 0)

  /** A row of cells; 0 is an empty cell. */
  type Row = r: seq<int> | |r| == BOARD_WIDTH witness seq(BOARD_WIDTH, i => 0)

  function EmptyRow(): (r: Row)
    ensures forall x :: 0 <= x < BOARD_WIDTH ==> r[x] == 0
  {
    seq(BOARD_WIDTH, i => 0)
  }

  function RowAt(b: Board, y: nat): Row
    requires y < BOARD_HEIGHT
  {
    b[BOARD_WIDTH * y..BOARD_WIDTH * y + BOARD_WIDTH]
  }

  function Rows(b: Board): (rows: seq<Row>)
    ensures |rows| == BOARD_HEIGHT
  {
    seq(BOARD_HEIGHT, y requires 0 <= y < BOARD_HEIGHT => RowAt(b, y))
  }

  predicate Full(r: Row) { forall x :: 0 <= x < BOARD_WIDTH ==> r[x] != 0 }

  /** The rows that are not full, in their order. */
  function Keep(rows: seq<Row>): (kept: seq<Row>)
    ensures |kept| <= |rows|
  {
    if rows == [] then []
    else (if Full(rows[0]) then [] else [rows[0]]) + Keep(rows[1..])
  }

  function EmptyRows(n: nat): (e: seq<Row>)
    ensures |e| == n && forall i :: 0 <= i < n ==> e[i] == EmptyRow()
  {
    seq(n, i => EmptyRow())
  }

  /** The board without its full rows, moved down, with empty rows on top. */
  function Cleared(rows: seq<Row>): (c: seq<Row>)
    ensures |c| == |rows|
  {
    EmptyRows(|rows| - |Keep(rows)|) + Keep(rows)
  }

  function FullCount(rows: seq<Row>): nat {
    if rows == [] then 0 else (if Full(rows[0]) then 1 else 0) + FullCount(rows[1..])
  }

  /** How many cells are filled. */
  function FilledIn(r: seq<int>): nat {
    if r == [] then 0 else (if r[0] != 0 then 1 else 0) + FilledIn(r[1..])
  }

  function Filled(rows: seq<Row>): nat {
    if rows == [] then 0 else FilledIn(rows[0]) + Filled(rows[1..])
  }

  predicate NoneFull(rows: seq<Row>) { forall i :: 0 <= i < |rows| ==> !Full(rows[i]) }

  // ---------- facts about clearing ----------

  lemma {:induction false} KeepCounts(rows: seq<Row>)
    ensures |Keep(rows)| + FullCount(rows) == |rows|
    ensures NoneFull(Keep(rows))
    ensures FullCount(rows) == 0 <==> NoneFull(rows)
  {
    if rows != [] {
      KeepCounts(rows[1..]);
      if NoneFull(rows) {
        forall i | 0 <= i < |rows| - 1 ensures !Full(rows[1..][i]) { assert rows[1..][i] == rows[i + 1]; }
      }
      if FullCount(rows) == 0 {
        forall i | 0 <= i < |rows| ensures !Full(rows[i]) {
          if i > 0 { assert rows[i] == rows[1..][i - 1]; }
        }
      }
    }
  }

  /** A row that stays falls by the number of full rows below it. */
  lemma {:induction false} FallsBy(rows: seq<Row>, k: nat)
    requires k < |rows| && !Full(rows[k])
    ensures k + FullCount(rows[k + 1..]) < |rows|
    ensures Cleared(rows)[k + FullCount(rows[k + 1..])] == rows[k]
  {
    KeptAt(rows, k);
    CountSplit(rows, k);
    CountSplit(rows[k..], 1);
    KeepCounts(rows);
    KeepCounts(rows[k + 1..]);
    assert rows[k..][1..] == rows[k + 1..] && rows[k..][..1] == [rows[k]];
    assert FullCount([rows[k]]) == 0;
  }

  lemma {:induction false} KeptAt(rows: seq<Row>, k: nat)
    requires k < |rows| && !Full(rows[k])
    ensures FullCount(rows[..k]) <= k && k - FullCount(rows[..k]) < |Keep(rows)|
    ensures Keep(rows)[k - FullCount(rows[..k])] == rows[k]
  {
    if k > 0 {
      KeptAt(rows[1..], k - 1);
      assert rows[..k][1..] == rows[1..][..k - 1];
    }
  }

  lemma {:induction false} CountSplit(rows: seq<Row>, k: nat)
    requires k <= |rows|
    ensures FullCount(rows) == FullCount(rows[..k]) + FullCount(rows[k..])
  {
    if k > 0 {
      CountSplit(rows[1..], k - 1);
      assert rows[..k][1..] == rows[1..][..k - 1] && rows[k..] == rows[1..][k - 1..];
    } else {
      assert rows[0..] == rows;
    }
  }

  lemma {:induction false} FilledInFull(r: seq<int>)
    requires forall x :: 0 <= x < |r| ==> r[x] != 0
    ensures FilledIn(r) == |r|
  {
    if r != [] { FilledInFull(r[1..]); }
  }

  lemma {:induction false} FilledAppend(s: seq<Row>, t: seq<Row>)
    ensures Filled(s + t) == Filled(s) + Filled(t)
  {
    if s == [] {
      assert s + t == t;
    } else {
      FilledAppend(s[1..], t);
      assert (s + t)[1..] == s[1..] + t;
    }
  }

  lemma {:induction false} FilledInEmpty(n: nat)
    ensures FilledIn(seq(n, i => 0)) == 0
  {
    if n > 0 {
      FilledInEmpty(n - 1);
      assert seq(n, i => 0)[1..] == seq(n - 1, i => 0);
    }
  }

  lemma {:induction false} FilledEmpty(n: nat)
    ensures Filled(EmptyRows(n)) == 0
  {
    if n > 0 {
      FilledEmpty(n - 1);
      assert EmptyRows(n)[1..] == EmptyRows(n - 1);
      assert FilledIn(EmptyRow()) == 0 by { FilledInEmpty(BOARD_WIDTH); }
    }
  }

  lemma {:induction false} FilledKeep(rows: seq<Row>)
    ensures Filled(rows) == Filled(Keep(rows)) + BOARD_WIDTH * FullCount(rows)
  {
    if rows != [] {
      FilledKeep(rows[1..]);
      if Full(rows[0]) {
        FilledInFull(rows[0]);
        assert Keep(rows) == Keep(rows[1..]);
      } else {
        assert Keep(rows)[1..] == Keep(rows[1..]);
      }
    }
  }

  /** Clearing removes ten cells for every full row, and leaves no full row. */
  lemma ClearedCounts(rows: seq<Row>)
    ensures Filled(Cleared(rows)) == Filled(rows) - BOARD_WIDTH * FullCount(rows)
    ensures NoneFull(Cleared(rows))
  {
    KeepCounts(rows);
    FilledKeep(rows);
    var n := |rows| - |Keep(rows)|;
    FilledAppend(EmptyRows(n), Keep(rows));
    FilledEmpty(n);
    forall i | 0 <= i < |rows| ensures !Full(Cleared(rows)[i]) {
      if i < n { assert Cleared(rows)[i] == EmptyRow() && EmptyRow()[0] == 0; }
      else { assert Cleared(rows)[i] == Keep(rows)[i - n]; }
    }
  }

  // ---------- facts about filling one cell ----------

  lemma {:induction false} FilledInStore(r: seq<int>, x: nat, v: int)
    requires x < |r| && v != 0
    ensures FilledIn(r[x := v]) == FilledIn(r) + if r[x] == 0 then 1 else 0
  {
    if x > 0 {
      FilledInStore(r[1..], x - 1, v);
      assert r[x := v][1..] == r[1..][x - 1 := v];
    } else {
      assert r[x := v][1..] == r[1..];
    }
  }

  lemma {:induction false} StoreRow(rows: seq<Row>, y: nat, r: Row)
    requires y < |rows|
    ensures Filled(rows[y := r]) == Filled(rows) - FilledIn(rows[y]) + FilledIn(r)
    ensures FullCount(rows[y := r]) <= FullCount(rows) + 1
  {
    if y > 0 {
      StoreRow(rows[1..], y - 1, r);
      assert rows[y := r][1..] == rows[1..][y - 1 := r];
    } else {
      assert rows[y := r][1..] == rows[1..];
    }
  }

  lemma RowsOfStore(b: Board, y: nat, x: nat, v: int)
    requires y < BOARD_HEIGHT && x < BOARD_WIDTH
    ensures Rows(b[BOARD_WIDTH * y + x := v]) == Rows(b)[y := RowAt(b, y)[x := v]]
  {
    var c := b[BOARD_WIDTH * y + x := v];
    forall k: nat | k < BOARD_HEIGHT ensures RowAt(c, k) == if k == y then RowAt(b, y)[x := v] else RowAt(b, k) {}
  }

  /** Filling one cell completes at most one row. */
  lemma StoreCounts(b: Board, y: nat, x: nat, v: int)
    requires y < BOARD_HEIGHT && x < BOARD_WIDTH && v != 0
    ensures var c: Board := b[BOARD_WIDTH * y + x := v];
            && Filled(Rows(c)) == Filled(Rows(b)) + (if b[BOARD_WIDTH * y + x] == 0 then 1 else 0)
            && FullCount(Rows(c)) <= FullCount(Rows(b)) + 1
  {
    RowsOfStore(b, y, x, v);
    FilledInStore(RowAt(b, y), x, v);
    StoreRow(Rows(b), y, RowAt(b, y)[x := v]);
  }
}

/** NUL-terminated strings in the rows of a two-dimensional array, and the C library's functions on them. */
module CString {
  const NUL: char := '\0'

  ghost function Row(g: array2<char>, y: int): (r: seq<char>)
    requires 0 <= y < g.Length0
    reads g
    ensures |r| == g.Length1 && forall j :: 0 <= j < |r| ==> r[j] == g[y, j]
  {
    seq(g.Length1, j requires 0 <= j < g.Length1 reads g => g[y, j])
  }

  /** The rows of the array. */
  ghost function RowsOf(g: array2<char>): (rows: seq<seq<char>>)
    reads g
    ensures |rows| == g.Length0 && forall i :: 0 <= i < |rows| ==> rows[i] == Row(g, i)
  {
    seq(g.Length0, i requires 0 <= i < g.Length0 reads g => Row(g, i))
  }

  /** A change of one row only. */
  lemma OneRowChanged(before: seq<seq<char>>, now: seq<seq<char>>, y: int, row: seq<char>)
    requires 0 <= y < |before| == |now| && now[y] == row
    requires forall i :: 0 <= i < |before| && i != y ==> |now[i]| == |before[i]|
    requires forall i, j :: 0 <= i < |before| && i != y && 0 <= j < |now[i]| ==> now[i][j] == before[i][j]
    ensures now == before[y := row]
  {
    forall i | 0 <= i < |now| && i != y ensures now[i] == before[i] {}
  }

  ghost predicate Terminated(row: seq<char>) { NUL in row }

  /** A C string ends at the first NUL. */
  function UpToNul(s: string): (t: string)
    ensures NUL !in t && t <= s
    ensures |t| < |s| ==> s[|t|] == NUL
  {
    if s == "" || s[0] == NUL then "" else [s[0]] + UpToNul(s[1..])
  }

  /** The string of a terminated row ends inside it. */
  lemma InRow(row: seq<char>)
    requires Terminated(row)
    ensures var t := UpToNul(row);
            |t| < |row| && row[..|t|] == t && row[|t|] == NUL && forall k :: 0 <= k < |t| ==> row[k] == t[k] != NUL
  {
    var t := UpToNul(row);
    assert t == row[..|t|];
    assert |t| == |row| ==> t == row;
  }

  /** Characters and then a NUL are the string of the row. */
  lemma {:induction false} StringIs(row: seq<char>, t: string)
    requires |t| < |row| && NUL !in t && row[|t|] == NUL
    requires forall k :: 0 <= k < |t| ==> row[k] == t[k]
    ensures UpToNul(row) == t && Terminated(row)
    decreases |t|
  {
    if t != "" {
      StringIs(row[1..], t[1..]);
      assert row[0] == t[0] && t[0] in t;
    }
  }

  // ---------- what the library's functions make of a row ----------

  /** The row after `strcpy` of t into it. */
  function Copied(row: seq<char>, t: string): seq<char>
    requires |t| < |row|
  {
    t + [NUL] + row[|t| + 1..]
  }

  /** The row after `strcat` of t to it. */
  function Joined(row: seq<char>, t: string): seq<char>
    requires |UpToNul(row)| + |t| < |row|
  {
    Copied(row, UpToNul(row) + t)
  }

  /** The row after `strncpy` of at most n characters of t into it: padded with NULs up to n. */
  function Padded(row: seq<char>, t: string, n: nat): seq<char>
    requires |t| <= n <= |row|
  {
    t + seq(n - |t|, i => NUL) + row[n..]
  }

  lemma CopiedString(row: seq<char>, t: string)
    requires |t| < |row| && NUL !in t
    ensures UpToNul(Copied(row, t)) == t && Terminated(Copied(row, t)) && |Copied(row, t)| == |row|
  {
    StringIs(Copied(row, t), t);
  }

  /** The copy is terminated unless it takes all n characters and what follows in the row is not. */
  lemma PaddedString(row: seq<char>, t: string, n: nat)
    requires |t| <= n < |row| && NUL !in t && (|t| < n || row[n] == NUL)
    ensures UpToNul(Padded(row, t, n)) == t && Terminated(Padded(row, t, n)) && |Padded(row, t, n)| == |row|
  {
    StringIs(Padded(row, t, n), t);
  }

  lemma IsCopied(before: seq<char>, after: seq<char>, t: string)
    requires |t| < |before| == |after| && after[|t|] == NUL
    requires forall j :: 0 <= j < |t| ==> after[j] == t[j]
    requires forall j :: |t| < j < |before| ==> after[j] == before[j]
    ensures after == Copied(before, t)
  {}

  lemma IsJoined(before: seq<char>, after: seq<char>, s: string, t: string)
    requires s == UpToNul(before) && |s| + |t| < |before| == |after| && after[|s| + |t|] == NUL
    requires forall j :: 0 <= j < |t| ==> after[|s| + j] == t[j]
    requires forall j :: 0 <= j < |before| && (j < |s| || j > |s| + |t|) ==> after[j] == before[j]
    ensures after == Joined(before, t)
  {
    forall j | 0 <= j < |s| + |t| ensures after[j] == (s + t)[j] {
      if j >= |s| { assert after[|s| + (j - |s|)] == t[j - |s|]; }
    }
    IsCopied(before, after, s + t);
  }

  lemma IsPadded(before: seq<char>, after: seq<char>, t: string, n: nat)
    requires |t| <= n <= |before| == |after|
    requires forall j :: 0 <= j < |t| ==> after[j] == t[j]
    requires forall j :: |t| <= j < n ==> after[j] == NUL
    requires forall j :: n <= j < |before| ==> after[j] == before[j]
    ensures after == Padded(before, t, n)
  {}

  // ---------- the functions ----------

  method StrLen(g: array2<char>, y: int) returns (n: int)
    requires 0 <= y < g.Length0 && Terminated(Row(g, y))
    ensures n == |UpToNul(Row(g, y))|
  {
    InRow(Row(g, y));
    n := 0;
    while g[y, n] != NUL
      invariant 0 <= n <= |UpToNul(Row(g, y))|
      decreases |UpToNul(Row(g, y))| - n
    {
      n := n + 1;
    }
  }

  method StrCpy(g: array2<char>, dst: int, src: int)
    requires 0 <= dst < g.Length0 && 0 <= src < g.Length0 && dst != src && Terminated(Row(g, src))
    modifies g
    ensures |UpToNul(old(Row(g, src)))| < g.Length1
    ensures RowsOf(g) == old(RowsOf(g))[dst := Copied(old(Row(g, dst)), UpToNul(old(Row(g, src))))]
  {
    hide UpToNul, Copied;
    ghost var row, end := Row(g, src), Row(g, dst);
    ghost var t := UpToNul(row);
    InRow(row);
    var n := 0;
    while g[src, n] != NUL
      invariant 0 <= n <= |t|
      invariant forall i, j :: 0 <= i < g.Length0 && 0 <= j < g.Length1 && (i != dst || j >= n) ==>
                  g[i, j] == old(g[i, j])
      invariant forall j :: 0 <= j < n ==> g[dst, j] == t[j]
      decreases |t| - n
    {
      g[dst, n] := g[src, n];
      n := n + 1;
    }
    g[dst, n] := NUL;
    IsCopied(end, Row(g, dst), t);
    OneRowChanged(old(RowsOf(g)), RowsOf(g), dst, Copied(end, t));
  }

  /** `strncpy` from the middle of a row: at most n characters, padded with NULs up to n. */
  method StrNCpy(g: array2<char>, dst: int, src: int, from: int, n: nat)
    requires 0 <= dst < g.Length0 && 0 <= src < g.Length0 && dst != src && n < g.Length1
    requires 0 <= from < g.Length1 && Terminated(Row(g, src)[from..]) && |UpToNul(Row(g, src)[from..])| <= n
    modifies g
    ensures RowsOf(g) == old(RowsOf(g))[dst := Padded(old(Row(g, dst)), UpToNul(old(Row(g, src))[from..]), n)]
  {
    hide UpToNul, Padded;
    ghost var row, end := Row(g, src), Row(g, dst);
    ghost var t := UpToNul(row[from..]);
    StringFrom(row, from);
    var i := 0;
    while i < n && g[src, from + i] != NUL
      invariant 0 <= i <= |t|
      invariant forall k, j :: 0 <= k < g.Length0 && 0 <= j < g.Length1 && (k != dst || j >= i) ==>
                  g[k, j] == old(g[k, j])
      invariant forall j :: 0 <= j < i ==> g[dst, j] == t[j]
    {
      assert g[src, from + i] == row[from + i];
      g[dst, i] := g[src, from + i];
      i := i + 1;
    }
    PadRow(g, dst, i, n);
    IsPadded(end, Row(g, dst), t, n);
    OneRowChanged(old(RowsOf(g)), RowsOf(g), dst, Padded(end, t, n));
  }

  lemma StringFrom(row: seq<char>, from: nat)
    requires from < |row| && Terminated(row[from..])
    ensures var t := UpToNul(row[from..]);
            && from + |t| < |row| && row[from + |t|] == NUL
            && forall k :: from <= k < from + |t| ==> row[k] == t[k - from] != NUL
  {
    InRow(row[from..]);
    var t := UpToNul(row[from..]);
    assert forall k :: from <= k < |row| ==> row[from..][k - from] == row[k];
  }

  /** The padding loop of `strncpy`. */
  method PadRow(g: array2<char>, y: int, from: int, n: int)
    requires 0 <= y < g.Length0 && 0 <= from <= n < g.Length1
    modifies g
    ensures forall i, j :: 0 <= i < g.Length0 && 0 <= j < g.Length1 ==>
              g[i, j] == if i == y && from <= j < n then NUL else old(g[i, j])
  {
    var i := from;
    while i < n
      invariant from <= i <= n
      invariant forall k, j :: 0 <= k < g.Length0 && 0 <= j < g.Length1 ==>
                  g[k, j] == if k == y && from <= j < i then NUL else old(g[k, j])
    {
      g[y, i] := NUL;
      i := i + 1;
    }
  }

  method StrCat(g: array2<char>, dst: int, src: int)
    requires 0 <= dst < g.Length0 && 0 <= src < g.Length0 && dst != src
    requires Terminated(Row(g, dst)) && Terminated(Row(g, src))
    requires |UpToNul(Row(g, dst))| + |UpToNul(Row(g, src))| < g.Length1
    modifies g
    ensures RowsOf(g) == old(RowsOf(g))[dst := Joined(old(Row(g, dst)), UpToNul(old(Row(g, src))))]
  {
    hide UpToNul, Joined;
    ghost var row, end := Row(g, src), Row(g, dst);
    ghost var s, t := UpToNul(end), UpToNul(row);
    InRow(row);
    InRow(end);
    var m := StrLen(g, dst);
    var n := 0;
    while g[src, n] != NUL
      invariant 0 <= n <= |t|
      invariant forall i, j :: 0 <= i < g.Length0 && 0 <= j < g.Length1 && (i != dst || j < m || j >= m + n) ==>
                  g[i, j] == old(g[i, j])
      invariant forall j :: 0 <= j < n ==> g[dst, m + j] == t[j]
      decreases |t| - n
    {
      g[dst, m + n] := g[src, n];
      n := n + 1;
    }
    g[dst, m + n] := NUL;
    IsJoined(end, Row(g, dst), s, t);
    OneRowChanged(old(RowsOf(g)), RowsOf(g), dst, Joined(end, t));
  }
}

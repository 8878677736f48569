/** The notepad's text as lines with a cursor, and as one flat string with an offset. */
module FlatText {
  import opened CString

  const MAX_LINES: nat := 256
  const MAX_LINE_LEN: nat := 128

  datatype Doc = Doc(text: seq<string>, y: int, x: int)

  /** The characters a line may hold. */
  predicate Plain(line: string) {
    |line| < MAX_LINE_LEN && '\n' !in line && NUL !in line
  }

  predicate IsText(text: seq<string>) {
    1 <= |text| <= MAX_LINES && forall i :: 0 <= i < |text| ==> Plain(text[i])
  }

  /** The cursor is in a line, or just behind it. */
  predicate CursorInLine(d: Doc) {
    0 <= d.y < |d.text| && 0 <= d.x <= |d.text[d.y]|
  }

  predicate IsDoc(d: Doc) {
    IsText(d.text) && CursorInLine(d)
  }

  /** Every line followed by a newline: what `editor_save_file` writes. */
  function Saved(text: seq<string>): string {
    if text == [] then "" else text[0] + "\n" + Saved(text[1..])
  }

  /** The lines joined by newlines. */
  function Flat(text: seq<string>): string {
    if text == [] then "" else if |text| == 1 then text[0] else text[0] + "\n" + Flat(text[1..])
  }

  /** The cursor's place in the flat string: each line before it counts its characters and one newline. */
  function Offset(d: Doc): int
    requires CursorInLine(d)
  {
    |Saved(d.text[..d.y])| + d.x
  }

  // ---------- the operations ----------

  function Insert(d: Doc, c: char): Doc
    requires CursorInLine(d)
  {
    var line := d.text[d.y];
    if |line| >= MAX_LINE_LEN - 1 then d
    else Doc(d.text[d.y := line[..d.x] + [c] + line[d.x..]], d.y, d.x + 1)
  }

  function Delete(d: Doc): Doc
    requires CursorInLine(d)
  {
    var line := d.text[d.y];
    if d.x > 0 then Doc(d.text[d.y := line[..d.x-1] + line[d.x..]], d.y, d.x - 1)
    else if d.y > 0 then
      Doc(d.text[..d.y-1] + [d.text[d.y-1] + line] + d.text[d.y+1..], d.y - 1, |d.text[d.y-1]|)
    else d
  }

  function Split(d: Doc): Doc
    requires CursorInLine(d)
  {
    var line := d.text[d.y];
    if |d.text| >= MAX_LINES then d
    else Doc(d.text[..d.y] + [line[..d.x], line[d.x..]] + d.text[d.y+1..], d.y + 1, 0)
  }

  function Move(d: Doc, dx: int, dy: int): Doc
    requires CursorInLine(d)
  {
    var y := if 0 <= d.y + dy < |d.text| then d.y + dy else d.y;
    var max := |d.text[y]|;
    var x := if dx > 0 then (if d.x + dx <= max then d.x + dx else max)
             else if dx < 0 then (if d.x + dx >= 0 then d.x + dx else 0)
             else if d.x > max then max else d.x;
    Doc(d.text, y, x)
  }

  /** Joining with the line before must fit in a line: the source does not check it. */
  predicate JoinFits(d: Doc)
    requires CursorInLine(d)
  {
    d.x == 0 && d.y > 0 ==> |d.text[d.y-1]| + |d.text[d.y]| < MAX_LINE_LEN
  }

  // ---------- flat text ----------

  lemma {:induction false} SavedConcat(a: seq<string>, b: seq<string>)
    ensures Saved(a + b) == Saved(a) + Saved(b)
  {
    if a == [] {
      assert a + b == b;
    } else {
      SavedConcat(a[1..], b);
      assert (a + b)[1..] == a[1..] + b;
    }
  }

  /** The saved text is the flat text and a last newline. */
  lemma {:induction false} SavedIsFlat(text: seq<string>)
    requires text != []
    ensures Saved(text) == Flat(text) + "\n"
  {
    if |text| > 1 { SavedIsFlat(text[1..]); }
  }

  /** The saved text around the lines from a to b. */
  lemma Around(text: seq<string>, a: nat, mid: seq<string>, b: nat)
    requires a <= b <= |text|
    ensures Saved(text[..a] + mid + text[b..]) == Saved(text[..a]) + Saved(mid) + Saved(text[b..])
    ensures Saved(text) == Saved(text[..a]) + Saved(text[a..b]) + Saved(text[b..])
  {
    SavedConcat(text[..a] + mid, text[b..]);
    SavedConcat(text[..a], mid);
    SavedConcat(text[..a] + text[a..b], text[b..]);
    SavedConcat(text[..a], text[a..b]);
    assert text == text[..a] + text[a..b] + text[b..];
  }

  lemma SavedNone(text: seq<string>)
    ensures Saved(text[..0]) == ""
  {}

  lemma SavedOne(line: string)
    ensures Saved([line]) == line + "\n"
  {}

  /** Putting w between u and v inside the saved text puts it there in the flat text. */
  lemma FlatEdit(before: seq<string>, after: seq<string>, u: string, w: string, v: string)
    requires before != [] && after != [] && v != []
    requires Saved(before) == u + v && Saved(after) == u + w + v
    ensures |u| <= |Flat(before)|
    ensures Flat(after) == Flat(before)[..|u|] + w + Flat(before)[|u|..]
  {
    SavedIsFlat(before);
    SavedIsFlat(after);
    var m := |v| - 1;
    assert Flat(before) == Saved(before)[..|u| + m] == u + v[..m];
    assert Flat(after) == Saved(after)[..|u| + |w| + m] == u + w + v[..m];
  }

  /** The text before the cursor and the text behind it. */
  ghost function Left(d: Doc): string
    requires CursorInLine(d)
  {
    Saved(d.text[..d.y]) + d.text[d.y][..d.x]
  }

  ghost function Right(d: Doc): string
    requires CursorInLine(d)
  {
    d.text[d.y][d.x..] + "\n" + Saved(d.text[d.y+1..])
  }

  lemma CutAtCursor(d: Doc)
    requires CursorInLine(d)
    ensures Saved(d.text) == Left(d) + Right(d) && |Left(d)| == Offset(d) && Right(d) != []
  {
    hide Saved;
    Around(d.text, d.y, [], d.y + 1);
    SavedOne(d.text[d.y]);
    assert d.text[d.y..d.y+1] == [d.text[d.y]];
    assert d.text[d.y] == d.text[d.y][..d.x] + d.text[d.y][d.x..];
  }

  /** An edit that only adds w to the left of the cursor. */
  lemma TypedFlat(d: Doc, e: Doc, w: string)
    requires CursorInLine(d) && CursorInLine(e)
    requires Left(e) == Left(d) + w && Right(e) == Right(d)
    ensures Offset(d) <= |Flat(d.text)|
    ensures Flat(e.text) == Flat(d.text)[..Offset(d)] + w + Flat(d.text)[Offset(d)..]
    ensures Offset(e) == Offset(d) + |w|
  {
    CutAtCursor(d);
    CutAtCursor(e);
    FlatEdit(d.text, e.text, Left(d), w, Right(d));
  }

  lemma InsertSides(d: Doc, c: char)
    requires IsDoc(d) && |d.text[d.y]| < MAX_LINE_LEN - 1
    ensures var e := Insert(d, c);
            CursorInLine(e) && Left(e) == Left(d) + [c] && Right(e) == Right(d)
  {
    var e := Insert(d, c);
    var line := d.text[d.y];
    assert e.text[..e.y] == d.text[..d.y] && e.text[e.y+1..] == d.text[d.y+1..];
    assert e.text[e.y] == (line[..d.x] + [c]) + line[d.x..];
  }

  lemma SplitSides(d: Doc)
    requires IsDoc(d) && |d.text| < MAX_LINES
    ensures var e := Split(d);
            CursorInLine(e) && Left(e) == Left(d) + "\n" && Right(e) == Right(d)
  {
    var e := Split(d);
    var line := d.text[d.y];
    assert e.text[..e.y] == d.text[..d.y] + [line[..d.x]];
    assert e.text[e.y+1..] == d.text[d.y+1..];
    SavedConcat(d.text[..d.y], [line[..d.x]]);
    SavedOne(line[..d.x]);
  }

  /** Typing a character puts it at the cursor's offset, unless the line is full. */
  lemma InsertIsFlatInsert(d: Doc, c: char)
    requires IsDoc(d) && c != '\n' && c != NUL
    ensures var e, o := Insert(d, c), Offset(d);
            && IsDoc(e)
            && o <= |Flat(d.text)|
            && (|d.text[d.y]| == 127 ==> e == d)
            && (|d.text[d.y]| < 127 ==>
                 Flat(e.text) == Flat(d.text)[..o] + [c] + Flat(d.text)[o..] && Offset(e) == o + 1)
  {
    if |d.text[d.y]| < MAX_LINE_LEN - 1 {
      InsertSides(d, c);
      TypedFlat(d, Insert(d, c), [c]);
    } else {
      TypedFlat(d, d, "");
    }
  }

  /** Splitting a line puts a newline at the cursor's offset, unless there are already 256 lines. */
  lemma SplitIsFlatNewline(d: Doc)
    requires IsDoc(d)
    ensures var e, o := Split(d), Offset(d);
            && IsDoc(e)
            && o <= |Flat(d.text)|
            && (|d.text| == 256 ==> e == d)
            && (|d.text| < 256 ==>
                 Flat(e.text) == Flat(d.text)[..o] + "\n" + Flat(d.text)[o..] && Offset(e) == o + 1)
  {
    if |d.text| < MAX_LINES {
      SplitSides(d);
      TypedFlat(d, Split(d), "\n");
    } else {
      TypedFlat(d, d, "");
    }
  }

  /** What is deleted is the character before the cursor: typing it again restores the document. */
  lemma DeleteThenRetype(d: Doc)
    requires IsDoc(d) && JoinFits(d)
    ensures var e := Delete(d);
            && IsDoc(e)
            && (d.x > 0 ==> |e.text[e.y]| < MAX_LINE_LEN - 1 && Insert(e, d.text[d.y][d.x-1]) == d)
            && (d.x == 0 && d.y > 0 ==> |e.text| < MAX_LINES && Split(e) == d)
            && (d.x == 0 && d.y == 0 ==> e == d)
  {
    var e := Delete(d);
    var line := d.text[d.y];
    if d.x > 0 {
      assert e.text[e.y][..e.x] == line[..d.x-1] && e.text[e.y][e.x..] == line[d.x..];
      assert line == line[..d.x-1] + [line[d.x-1]] + line[d.x..];
      assert Insert(e, line[d.x-1]).text == d.text;
    } else if d.y > 0 {
      var above := d.text[d.y-1];
      assert e.text[e.y][..e.x] == above && e.text[e.y][e.x..] == line;
      assert e.text[..e.y] == d.text[..d.y-1] && e.text[e.y+1..] == d.text[d.y+1..];
      assert d.text == d.text[..d.y-1] + [above, line] + d.text[d.y+1..];
    }
  }

  lemma OffsetZero(d: Doc)
    requires CursorInLine(d)
    ensures Offset(d) == 0 <==> d.x == 0 && d.y == 0
  {}

  /** The same edit, read backwards: it removes one character. */
  lemma RemovedFlat(d: Doc, e: Doc, c: char)
    requires CursorInLine(d) && CursorInLine(e)
    requires Left(d) == Left(e) + [c] && Right(d) == Right(e)
    ensures 0 < Offset(d) <= |Flat(d.text)|
    ensures Flat(e.text) == Flat(d.text)[..Offset(d)-1] + Flat(d.text)[Offset(d)..]
    ensures Offset(e) == Offset(d) - 1
  {
    TypedFlat(e, d, [c]);
    var f, o := Flat(e.text), Offset(e);
    assert f == f[..o] + f[o..];
    assert Flat(d.text)[..o] == f[..o] && Flat(d.text)[o+1..] == f[o..];
  }

  lemma DeleteSides(d: Doc)
    requires IsDoc(d) && JoinFits(d) && (d.x > 0 || d.y > 0)
    ensures var e := Delete(d);
            && IsDoc(e) && Right(d) == Right(e)
            && Left(d) == Left(e) + if d.x > 0 then [d.text[d.y][d.x-1]] else "\n"
  {
    var e := Delete(d);
    DeleteThenRetype(d);
    if d.x > 0 { InsertSides(e, d.text[d.y][d.x-1]); } else { SplitSides(e); }
  }

  /** Deleting removes the character before the cursor's offset, newline or not. */
  lemma DeleteIsFlatRemove(d: Doc)
    requires IsDoc(d) && JoinFits(d)
    ensures var e, o := Delete(d), Offset(d);
            && IsDoc(e)
            && 0 <= o <= |Flat(d.text)|
            && (o == 0 ==> e == d)
            && (o > 0 ==> Flat(e.text) == Flat(d.text)[..o-1] + Flat(d.text)[o..] && Offset(e) == o - 1)
  {
    OffsetZero(d);
    if d.x > 0 || d.y > 0 {
      DeleteSides(d);
      RemovedFlat(d, Delete(d), if d.x > 0 then d.text[d.y][d.x-1] else '\n');
    }
  }

  /** Splitting a line and deleting gives back the lines and the cursor. */
  lemma SplitThenDelete(d: Doc)
    requires IsDoc(d) && |d.text| < MAX_LINES
    ensures var e := Split(d);
            CursorInLine(e) && JoinFits(e) && Delete(e) == d
  {
    var e := Split(d);
    var line := d.text[d.y];
    assert line[..d.x] + line[d.x..] == line;
    assert e.text[..e.y-1] == d.text[..d.y] && e.text[e.y+1..] == d.text[d.y+1..];
    assert Delete(e).text == d.text[..d.y] + [line] + d.text[d.y+1..] == d.text;
  }

  /** Moving by steps that are horizontal or vertical keeps the cursor in its line. In general it does
      unless the step goes left and onto a line shorter than where the step ends. */
  lemma MoveStaysInLine(d: Doc, dx: int, dy: int)
    requires IsDoc(d)
    ensures var e := Move(d, dx, dy);
            && e.text == d.text
            && (CursorInLine(e) <==> !(dx < 0 && 0 <= d.y + dy < |d.text| && d.x + dx > |d.text[d.y+dy]|))
            && (dx == 0 || dy == 0 ==> CursorInLine(e))
  {}

  /** A step left and down from column 2 onto an empty line ends outside it. */
  lemma MoveLeavesLine()
    ensures var d := Doc(["ab", ""], 0, 2);
            IsDoc(d) && !CursorInLine(Move(d, -1, 1))
  {
    assert Plain("ab") && Plain("");
  }

  /** The exact condition for deleting: the text stays well formed exactly when the join fits. */
  lemma DeleteFitsExactly(d: Doc)
    requires IsDoc(d)
    ensures IsDoc(Delete(d)) <==> JoinFits(d)
  {
    if JoinFits(d) {
      DeleteThenRetype(d);
    } else {
      var e := Delete(d);
      assert |e.text[d.y-1]| == |d.text[d.y-1]| + |d.text[d.y]| >= MAX_LINE_LEN;
      assert !Plain(e.text[d.y-1]);
    }
  }

  /** Two lines of 64 characters do not join. */
  lemma DeleteOverflows()
    ensures var d := Doc([seq(64, i => 'a'), seq(64, i => 'a')], 1, 0);
            IsDoc(d) && !IsDoc(Delete(d))
  {
    var d := Doc([seq(64, i => 'a'), seq(64, i => 'a')], 1, 0);
    assert IsDoc(d) && !JoinFits(d);
    DeleteFitsExactly(d);
  }

  // ---------- the flat view loses nothing ----------

  /** Cursors further on have larger offsets: no two share one. */
  lemma OffsetOrders(d: Doc, e: Doc)
    requires CursorInLine(d) && CursorInLine(e) && d.text == e.text
    requires d.y < e.y || (d.y == e.y && d.x < e.x)
    ensures Offset(d) < Offset(e)
  {
    if d.y < e.y {
      var t := d.text[..e.y];
      Around(t, d.y, [], d.y + 1);
      assert t[..d.y] == d.text[..d.y] && t[d.y..d.y+1] == [d.text[d.y]];
      SavedOne(d.text[d.y]);
    }
  }

  /** The cursor at an offset. */
  ghost function Locate(text: seq<string>, o: int): Doc
    requires text != []
    decreases |text|
  {
    if o <= |text[0]| || |text| == 1 then Doc(text, 0, o)
    else
      var e := Locate(text[1..], o - |text[0]| - 1);
      Doc(text, e.y + 1, e.x)
  }

  /** Every offset of the flat text is the place of a cursor. */
  lemma {:induction false} EveryOffset(text: seq<string>, o: nat)
    requires text != [] && o <= |Flat(text)|
    ensures var d := Locate(text, o);
            d.text == text && CursorInLine(d) && Offset(d) == o
  {
    hide Saved;
    SavedNone(text);
    if o > |text[0]| {
      EveryOffset(text[1..], o - |text[0]| - 1);
      var e := Locate(text[1..], o - |text[0]| - 1);
      assert text[..e.y + 1] == [text[0]] + e.text[..e.y];
      SavedConcat([text[0]], e.text[..e.y]);
      SavedOne(text[0]);
    }
  }

  lemma {:induction false} SavedInjective(a: seq<string>, b: seq<string>)
    requires forall i :: 0 <= i < |a| ==> '\n' !in a[i]
    requires forall i :: 0 <= i < |b| ==> '\n' !in b[i]
    requires Saved(a) == Saved(b)
    ensures a == b
  {
    if a != [] && b != [] {
      SameFirst(a[0], Saved(a[1..]), b[0], Saved(b[1..]));
      SavedInjective(a[1..], b[1..]);
    }
  }

  /** The lines can be read back from the flat text. */
  lemma FlatInjective(a: seq<string>, b: seq<string>)
    requires IsText(a) && IsText(b) && Flat(a) == Flat(b)
    ensures a == b
  {
    SavedIsFlat(a);
    SavedIsFlat(b);
    assert forall i :: 0 <= i < |a| ==> Plain(a[i]);
    assert forall i :: 0 <= i < |b| ==> Plain(b[i]);
    SavedInjective(a, b);
  }

  lemma SameFirst(s: string, u: string, t: string, v: string)
    requires '\n' !in s && '\n' !in t && s + "\n" + u == t + "\n" + v
    ensures s == t && u == v
  {
    var w := s + "\n" + u;
    assert w[|s|] == '\n' && w[|t|] == '\n';
    assert forall k :: 0 <= k < |s| ==> w[k] == s[k];
    assert forall k :: 0 <= k < |t| ==> w[k] == t[k];
    assert s == w[..|s|] && t == w[..|t|] && u == w[|s|+1..] && v == w[|t|+1..];
  }
}

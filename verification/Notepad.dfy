/** The notepad: an array of lines edited in place. */
module Notepad {
  import opened Bits
  import opened CString
  import opened FlatText
  import opened NotepadKeys
  import opened NotepadRows
  import opened TextFile

  // ---------- edits of the array ----------

  /** The shifting loop of `editor_insert_char`, and the NUL behind it. */
  method InsertInRow(g: array2<char>, y: int, x: int, len: int, c: char)
    requires 0 <= y < g.Length0 && Terminated(Row(g, y)) && len == |UpToNul(Row(g, y))|
    requires 0 <= x < g.Length1 && len < g.Length1 - 1
    modifies g
    ensures RowsOf(g) == old(RowsOf(g))[y := Typed(old(Row(g, y)), x, c)]
  {
    hide UpToNul;
    var i := len;
    while i > x
      invariant i == len || x <= i <= len
      invariant forall k, j :: 0 <= k < g.Length0 && 0 <= j < g.Length1 && (k != y || j <= i || j > len) ==>
                  g[k, j] == old(g[k, j])
      invariant forall j :: i < j <= len ==> g[y, j] == old(g[y, j-1])
    {
      g[y, i] := g[y, i-1];
      i := i - 1;
    }
    g[y, x] := c;
    g[y, len + 1] := NUL;
    OneRowChanged(old(RowsOf(g)), RowsOf(g), y, Typed(old(Row(g, y)), x, c));
  }

  /** The shifting loop of `editor_delete_char`. */
  method RemoveFromRow(g: array2<char>, y: int, x: int)
    requires 0 <= y < g.Length0 && Terminated(Row(g, y)) && x > 0
    modifies g
    ensures RowsOf(g) == old(RowsOf(g))[y := Erased(old(Row(g, y)), x)]
  {
    hide UpToNul, Erased;
    ghost var row := Row(g, y);
    InRow(row);
    var len := StrLen(g, y);
    var i := x - 1;
    while i < len
      invariant x - 1 <= i && (i <= len || i == x - 1)
      invariant forall k, j :: 0 <= k < g.Length0 && 0 <= j < g.Length1 && (k != y || j < x - 1 || j >= i) ==>
                  g[k, j] == old(g[k, j])
      invariant forall j :: x - 1 <= j < i && j < len ==> g[y, j] == row[j + 1]
    {
      g[y, i] := g[y, i+1];
      i := i + 1;
    }
    IsErased(row, Row(g, y), x);
    OneRowChanged(old(RowsOf(g)), RowsOf(g), y, Erased(row, x));
  }

  /** Writes a NUL into column x of a row. */
  method CutRow(g: array2<char>, y: int, x: int)
    requires 0 <= y < g.Length0 && 0 <= x < g.Length1
    modifies g
    ensures RowsOf(g) == old(RowsOf(g))[y := Cut(old(Row(g, y)), x)]
  {
    g[y, x] := NUL;
    OneRowChanged(old(RowsOf(g)), RowsOf(g), y, Cut(old(Row(g, y)), x));
  }

  /** The loop of `editor_delete_char` that moves rows up. */
  method ShiftUp(g: array2<char>, from: int, count: int)
    requires AllRows(RowsOf(g)) && g.Length1 == MAX_LINE_LEN && 0 <= from && count <= MAX_LINES
    modifies g
    ensures RowsOf(g) == Up(old(RowsOf(g)), from, count)
  {
    hide UpToNul, Copied, AllRows;
    ghost var rows := RowsOf(g);
    ShiftStart(rows, from, count);
    var i := from;
    while i < count - 1
      invariant from <= i && (i <= count - 1 || i == from)
      invariant RowsOf(g) == Up(rows, from, if i < count then i + 1 else count)
    {
      UpStep(rows, RowsOf(g), from, i);
      StrCpy(g, i, i + 1);
      i := i + 1;
    }
  }

  lemma ShiftStart(rows: seq<seq<char>>, y: int, count: int)
    requires AllRows(rows) && 0 <= y && count <= MAX_LINES
    ensures Up(rows, y, if y < count then y + 1 else count) == rows
    ensures count < MAX_LINES ==> Down(rows, if count > y + 1 then count - 1 else y, count) == rows
  {}

  /** One more row moved up. */
  lemma UpStep(rows: seq<seq<char>>, mid: seq<seq<char>>, from: int, i: int)
    requires AllRows(rows) && 0 <= from <= i < MAX_LINES - 1 && mid == Up(rows, from, i + 1)
    ensures mid[i] == rows[i] && mid[i + 1] == rows[i + 1] && IsRow(rows[i + 1])
    ensures mid[i := CopyRow(rows, i, i + 1)] == Up(rows, from, i + 2)
  {}

  /** The loop of `editor_split_line`: the last row moves first. */
  method ShiftDown(g: array2<char>, y: int, count: int)
    requires AllRows(RowsOf(g)) && g.Length1 == MAX_LINE_LEN && 0 <= y && count < MAX_LINES
    modifies g
    ensures RowsOf(g) == Down(old(RowsOf(g)), y, count)
  {
    hide UpToNul, Copied, AllRows;
    ghost var rows := RowsOf(g);
    ShiftStart(rows, y, count);
    var i := count;
    while i > y + 1
      invariant i == count || y + 1 <= i <= count
      invariant RowsOf(g) == Down(rows, if i > y + 1 then i - 1 else y, count)
    {
      DownStep(rows, RowsOf(g), i, count);
      StrCpy(g, i, i - 1);
      i := i - 1;
    }
  }

  /** One more row moved down. */
  lemma DownStep(rows: seq<seq<char>>, mid: seq<seq<char>>, i: int, count: int)
    requires AllRows(rows) && 1 < i <= count < MAX_LINES && mid == Down(rows, i - 1, count)
    ensures mid[i] == rows[i] && mid[i - 1] == rows[i - 1] && IsRow(rows[i - 1])
    ensures mid[i := CopyRow(rows, i, i - 1)] == Down(rows, i - 2, count)
  {}

  /** `fgets` into a row: the characters taken, then a NUL. */
  method FGets(g: array2<char>, y: int, n: int, file: string, pos: nat) returns (got: bool, next: nat)
    requires 0 <= y < g.Length0 && 1 < n == g.Length1 && pos <= |file|
    modifies g
    ensures next == pos + Taken(file[pos..], n - 1) && (got <==> pos < |file|)
    ensures RowsOf(g) == if got then old(RowsOf(g))[y := Copied(old(Row(g, y)), file[pos..next])] else old(RowsOf(g))
  {
    hide Copied;
    next := pos;
    got := pos < |file|;
    if !got { return; }
    ghost var before := Row(g, y);
    ghost var taken := Taken(file[pos..], n - 1);
    var stop := false;
    while !stop && next - pos < n - 1 && next < |file|
      invariant pos <= next <= |file| && next - pos <= n - 1
      invariant taken == next - pos + if stop then 0 else Taken(file[next..], n - 1 - (next - pos))
      invariant forall k, j :: 0 <= k < g.Length0 && 0 <= j < g.Length1 && (k != y || j >= next - pos) ==>
                  g[k, j] == old(g[k, j])
      invariant forall j :: 0 <= j < next - pos ==> g[y, j] == file[pos + j]
      decreases |file| - next
    {
      g[y, next - pos] := file[next];
      stop := file[next] == '\n';
      assert file[next..][1..] == file[next + 1..];
      next := next + 1;
    }
    g[y, next - pos] := NUL;
    IsCopied(before, Row(g, y), file[pos..next]);
    OneRowChanged(old(RowsOf(g)), RowsOf(g), y, Copied(before, file[pos..next]));
  }

  /** Reads a line into a row and drops its newline, if there is one. */
  method GetLine(g: array2<char>, y: int, file: string, pos: nat) returns (got: bool, next: nat)
    requires 0 <= y < g.Length0 && g.Length1 == MAX_LINE_LEN && pos <= |file|
    modifies g
    ensures next == pos + Taken(file[pos..], MAX_LINE_LEN - 1) && (got <==> pos < |file|)
    ensures RowsOf(g) == if got then old(RowsOf(g))[y := Got(old(Row(g, y)), file[pos..next])] else old(RowsOf(g))
  {
    hide Taken, UpToNul, Copied;
    got, next := FGets(g, y, MAX_LINE_LEN, file, pos);
    if got {
      ghost var chunk := file[pos..next];
      ChunkString(old(Row(g, y)), chunk);
      InRow(Row(g, y));
      var len := StrLen(g, y);
      if len > 0 && g[y, len - 1] == '\n' {
        CutRow(g, y, len - 1);
      }
    }
  }

  lemma ChunkString(row: seq<char>, chunk: string)
    requires |chunk| < |row|
    ensures UpToNul(Copied(row, chunk)) == UpToNul(chunk) && Terminated(Copied(row, chunk))
  {
    StringIs(Copied(row, chunk), UpToNul(chunk));
  }

  /** `fprintf` of one line. */
  method Print(g: array2<char>, y: int, file: string) returns (out: string)
    requires 0 <= y < g.Length0 && Terminated(Row(g, y))
    ensures out == file + UpToNul(Row(g, y)) + "\n"
  {
    hide UpToNul;
    ghost var t := UpToNul(Row(g, y));
    InRow(Row(g, y));
    out := file;
    var i := 0;
    while g[y, i] != NUL
      invariant 0 <= i <= |t| && out == file + t[..i]
      decreases |t| - i
    {
      assert g[y, i] == t[i];
      out := out + [g[y, i]];
      i := i + 1;
    }
    out := out + "\n";
  }

  // ---------- the editor ----------

  class Editor {
    const lines: array2<char>
    var lineCount: int
    var cursorX: int
    var cursorY: int
    var modified: bool
    var filename: string
    var running: bool

    ghost function Now(): Buffer
      reads this, lines
    {
      Buffer(RowsOf(lines), lineCount, cursorY, cursorX)
    }

    /** Every row is terminated, and the cursor is in the array: also after opening a file has left it outside
        its line. */
    ghost predicate Valid()
      reads this, lines
    {
      lines.Length0 == MAX_LINES && lines.Length1 == MAX_LINE_LEN && InArray(Now())
    }

    /** The lines and the cursor. */
    ghost function View(): Doc
      requires Valid()
      reads this, lines
    {
      DocOf(Now())
    }

    /** `editor_init`. */
    constructor ()
      ensures Valid() && Tidy(Now()) && fresh(lines) && View() == Doc([""], 0, 0) && IsDoc(View())
      ensures !modified && filename == "" && running
    {
      lines := new char[MAX_LINES, MAX_LINE_LEN]((i, j) => NUL);
      lineCount, cursorX, cursorY := 1, 0, 0;
      modified, filename, running := false, "", true;
      new;
      forall i | 0 <= i < MAX_LINES ensures IsRow(RowsOf(lines)[i]) { assert RowsOf(lines)[i][0] == NUL; }
      assert View().text == [""];
    }

    method InsertChar(c: char)
      requires Valid() && CanType(Now()) && c != NUL
      modifies this, lines
      ensures Valid() && Now() == TypeKey(old(Now()), c)
      ensures modified == (old(modified) || |At(old(Now()), old(cursorY))| < MAX_LINE_LEN - 1)
      ensures filename == old(filename) && running == old(running)
    {
      hide UpToNul, Typed;
      TypeStays(Now(), c);
      var len := StrLen(lines, cursorY);
      if len < MAX_LINE_LEN - 1 {
        InsertInRow(lines, cursorY, cursorX, len, c);
        cursorX := cursorX + 1;
        modified := true;
      }
    }

    method DeleteChar()
      requires Valid() && CanErase(Now())
      modifies this, lines
      ensures Valid() && Now() == EraseKey(old(Now()))
      ensures modified == (old(modified) || old(cursorX) > 0 || old(cursorY) > 0)
      ensures filename == old(filename) && running == old(running)
    {
      hide UpToNul, Erased, RowsUp;
      EraseStays(Now());
      if cursorX > 0 {
        RemoveFromRow(lines, cursorY, cursorX);
        cursorX := cursorX - 1;
        modified := true;
      } else if cursorY > 0 {
        JoinRows();
      }
    }

    /** Joins the cursor's row to the row before. */
    method JoinRows()
      requires Valid() && CanErase(Now()) && cursorX == 0 && cursorY > 0
      modifies this, lines
      ensures Now() == Buffer(RowsUp(old(Now())), old(lineCount) - 1, old(cursorY) - 1,
                              |UpToNul(old(Row(lines, cursorY - 1)))|)
      ensures modified && filename == old(filename) && running == old(running)
    {
      hide UpToNul, Joined, Copied;
      ghost var b := Now();
      JoinStays(b.rows, b.y);
      var prevLen := StrLen(lines, cursorY - 1);
      StrCat(lines, cursorY - 1, cursorY);
      ShiftUp(lines, cursorY, lineCount);
      lineCount := lineCount - 1;
      cursorY := cursorY - 1;
      cursorX := prevLen;
      modified := true;
    }

    method SplitLine()
      requires Valid() && CanBreak(Now())
      modifies this, lines
      ensures Valid() && Now() == BreakKey(old(Now()))
      ensures modified == (old(modified) || old(lineCount) < MAX_LINES)
      ensures filename == old(filename) && running == old(running)
    {
      hide UpToNul, Padded, Copied;
      ghost var b := Now();
      BreakStays(b);
      if lineCount >= MAX_LINES { return; }
      InRow(b.rows[b.y][b.x..]);
      ShiftDown(lines, cursorY, lineCount);
      StrNCpy(lines, cursorY + 1, cursorY, cursorX, MAX_LINE_LEN - 1);
      CutRow(lines, cursorY, cursorX);
      lineCount := lineCount + 1;
      cursorY := cursorY + 1;
      cursorX := 0;
      modified := true;
    }

    method MoveCursor(dx: int, dy: int)
      requires Valid()
      modifies this`cursorX, this`cursorY
      ensures Valid() && Now() == MoveKey(old(Now()), dx, dy)
    {
      hide UpToNul;
      var newY := cursorY + dy;
      if newY >= 0 && newY < lineCount {
        cursorY := newY;
      }
      var maxX := StrLen(lines, cursorY);
      InRow(Row(lines, cursorY));
      var newX := cursorX + dx;
      if dx > 0 {
        cursorX := if newX <= maxX then newX else maxX;
      } else if dx < 0 {
        cursorX := if newX >= 0 then newX else 0;
      } else if cursorX > maxX {
        cursorX := maxX;
      }
    }

    /** `editor_handle_key`, by key code. The answers to the dialogs are the path of a file to open, whether to save
        before quitting, and whether the file to save opens; the result is what has been written to it. The key
        stays in the array wherever the cursor is, and with the cursor in its line it does to the lines what it is
        bound to. */
    method HandleKey(k: Key, path: string, yes: bool, opens: bool) returns (written: Option<string>)
      requires Valid() && running && CanTap(Now(), k)
      modifies this, lines
      ensures Valid() && Now() == Tap(old(Now()), k)
      ensures IsDoc(old(View())) ==> View() == Press(old(View()), k)
      ensures k.code in {16, 'P' as int} ==>
                written == if old(filename) != "" && opens then Some(Saved(old(View()).text)) else None
      ensures k.code in {17, 'Q' as int} ==>
                written == if old(modified) && yes && old(filename) != "" && opens then Some(Saved(old(View()).text))
                           else None
      ensures k.code !in {16, 'P' as int, 17, 'Q' as int} ==> written == None
      ensures running <==> k.code !in {17, 'Q' as int}
      ensures modified == (written == None && !Opens(k) && (old(modified) || Touches(old(Now()), k)))
      ensures filename == if Opens(k) then Clipped(path) else old(filename)
    {
      hide CanTap, Tap, Press, InArray, IsDoc, Touches;
      ghost var b := Now();
      written := TapKey(k, path, yes, opens);
      if IsDoc(old(View())) { TapRefines(b, k); }
    }

    /** The switch. */
    method TapKey(k: Key, path: string, yes: bool, opens: bool) returns (written: Option<string>)
      requires Valid() && running && CanTap(Now(), k)
      modifies this, lines
      ensures Valid() && Now() == Tap(old(Now()), k)
      ensures k.code in {16, 'P' as int} ==>
                written == if old(filename) != "" && opens then Some(Saved(old(View()).text)) else None
      ensures k.code in {17, 'Q' as int} ==>
                written == if old(modified) && yes && old(filename) != "" && opens then Some(Saved(old(View()).text))
                           else None
      ensures k.code !in {16, 'P' as int, 17, 'Q' as int} ==> written == None
      ensures running <==> k.code !in {17, 'Q' as int}
      ensures modified == (written == None && !Opens(k) && (old(modified) || Touches(old(Now()), k)))
      ensures filename == if Opens(k) then Clipped(path) else old(filename)
    {
      DialogTouches(Now(), k);
      hide Tap, InArray, CanTap, Bound, Touches, DocOf, Saved;
      DialogKeys(k);
      TapDialog(Now(), k);
      written := None;
      var c := k.code;
      if c == 15 || c == 'o' as int || c == 'O' as int {
        if c == 15 || c == 'O' as int {
          OpenDialog(k, path);
        }
      } else if c == 16 || c == 'p' as int || c == 'P' as int {
        if c == 16 || c == 'P' as int {
          written := SaveDialog(opens);
        }
      } else if c == 17 || c == 'q' as int || c == 'Q' as int {
        if c == 17 || c == 'Q' as int {
          if modified && yes {
            written := SaveDialog(opens);
          }
          running := false;
        }
      } else if c == 19 || c == 's' as int || c == 'S' as int {
        // Capital S reads a search pattern, which the model leaves out.
      } else if c == 7 || c == 'g' as int || c == 'G' as int {
        if c == 7 || c == 'G' as int {
          GoToDialog(k);
        }
      } else if c == 0 {
        ExtendedKey(k);
      } else {
        EditingKey(k);
      }
    }

    /** Opening a file from the keyboard. */
    method OpenDialog(k: Key, path: string)
      requires Valid() && CanTap(Now(), k) && k.code in {15, 'O' as int}
      modifies this, lines
      ensures Valid() && Now() == Tap(old(Now()), k) && running == old(running)
      ensures modified == (!Opens(k) && old(modified)) && filename == if Opens(k) then Clipped(path) else old(filename)
    {
      hide Tap, InArray, CanTap, Bound, OpenKey, Loaded;
      DialogKeys(k);
      TapDialog(Now(), k);
      var status := LoadFile(k.file.Some?, path, if k.file.Some? then k.file.value else "");
    }

    /** Saving from the keyboard. */
    method SaveDialog(opens: bool) returns (written: Option<string>)
      requires Valid()
      modifies `modified
      ensures Valid() && Now() == old(Now())
      ensures written == if filename != "" && opens then Some(Saved(View().text)) else None
      ensures modified == (written == None && old(modified))
    {
      hide InArray, Saved;
      var status, file := SaveFile(opens);
      written := if status == 0 then Some(file) else None;
    }

    /** Going to a line. */
    method GoToDialog(k: Key)
      requires Valid() && CanTap(Now(), k) && k.code in {7, 'G' as int}
      modifies `cursorX, `cursorY
      ensures Valid() && Now() == Tap(old(Now()), k)
    {
      hide Tap, CanTap, Bound, AllRows;
      DialogKeys(k);
      TapDialog(Now(), k);
      if k.line > 0 && k.line <= lineCount {
        cursorY := k.line - 1;
        cursorX := 0;
      }
    }

    /** The keys at the end of the switch: they split, delete or type. */
    method EditingKey(k: Key)
      requires Valid() && CanTap(Now(), k) && k.code !in {0, 7, 15, 16, 17, 19}
      requires 0 <= k.code < 127 ==> k.code as char !in {'o', 'O', 'p', 'P', 'q', 'Q', 's', 'S', 'g', 'G'}
      modifies this, lines
      ensures Valid() && Now() == Tap(old(Now()), k)
      ensures modified == (old(modified) || Touches(old(Now()), k))
      ensures filename == old(filename) && running == old(running)
    {
      hide CanBreak, CanErase, CanType, CanSpace, BreakKey, EraseKey, TypeKey, SpaceKey, OpenKey, InArray;
      var c := k.code;
      if c == '\r' as int || c == '\n' as int {
        SplitLine();
      } else if c == 8 || c == 127 {
        DeleteChar();
      } else if c == '\t' as int {
        TypeSpaces(4);
      } else if c >= 32 && c < 127 {
        InsertChar(c as char);
      }
    }

    /** The keys with an extended code: arrows, Home, End and Delete. */
    method ExtendedKey(k: Key)
      requires Valid() && k.code == 0 && CanTap(Now(), k)
      modifies this, lines
      ensures Valid() && Now() == Tap(old(Now()), k)
      ensures modified == (old(modified) || Touches(old(Now()), k))
      ensures filename == old(filename) && running == old(running)
    {
      hide CanErase, EraseKey, UpToNul, InArray, MoveKey;
      CursorRow(Now());
      TapStays(Now(), k);
      match k.ext
      case 72 => MoveCursor(0, -1);
      case 80 => MoveCursor(0, 1);
      case 75 => MoveCursor(-1, 0);
      case 77 => MoveCursor(1, 0);
      case 71 => cursorX := 0;
      case 79 => cursorX := StrLen(lines, cursorY);
      case 83 => DeleteChar();
      case _ =>
    }

    method TypeSpaces(n: nat)
      requires Valid() && CanSpace(Now(), n)
      modifies this, lines
      ensures Valid() && Now() == SpaceKey(old(Now()), n)
      ensures modified == (old(modified) || (n > 0 && |At(old(Now()), old(cursorY))| < MAX_LINE_LEN - 1))
      ensures filename == old(filename) && running == old(running)
    {
      hide TypeKey, CanType, AllRows;
      var i := 0;
      while i < n
        invariant 0 <= i <= n && Valid() && CanSpace(Now(), n - i)
        invariant SpaceKey(Now(), n - i) == SpaceKey(old(Now()), n)
        invariant filename == old(filename) && running == old(running)
        invariant if i > 0 && |At(old(Now()), old(cursorY))| < MAX_LINE_LEN - 1 then modified
                  else modified == old(modified) && Now() == old(Now())
      {
        FullTakesNothing(Now(), ' ');
        InsertChar(' ');
        i := i + 1;
      }
    }

    /** `editor_load_file`: the file opens, or does not; then nothing changes. The cursor stays where it was in
        the old text. */
    method LoadFile(opens: bool, path: string, file: string) returns (status: int)
      requires Valid()
      modifies this, lines
      ensures Valid() && Now() == (if opens then OpenKey(old(Now()), file) else old(Now()))
      ensures opens ==> View() == Doc(Loaded(file), old(cursorY), old(cursorX))
      ensures status == (if opens then 0 else -1) && running == old(running)
      ensures modified == (!opens && old(modified)) && filename == if opens then Clipped(path) else old(filename)
    {
      hide Lines, Cut, ReadInto, AllRows, Loaded;
      if !opens { return -1; }
      OpenRefines(Now(), file);
      filename := Clipped(path);
      ReadLines(file);
      if lineCount == 0 {
        NothingReadInto(old(RowsOf(lines)), file);
        lineCount := 1;
        CutRow(lines, 0, 0);
      }
      modified := false;
      status := 0;
    }

    /** The loop of `editor_load_file`. */
    method ReadLines(file: string)
      requires lines.Length0 == MAX_LINES && lines.Length1 == MAX_LINE_LEN && AllRows(RowsOf(lines))
      modifies `lineCount, lines
      ensures lineCount == |Lines(file, MAX_LINES)| && RowsOf(lines) == ReadInto(old(RowsOf(lines)), file, lineCount)
    {
      hide Lines, Taken, Got;
      ghost var rows := RowsOf(lines);
      LinesPlain(file, MAX_LINES);
      lineCount := 0;
      var pos, got := 0, true;
      assert file[0..] == file;
      while got && lineCount < MAX_LINES
        invariant 0 <= lineCount <= MAX_LINES && pos == ChunkStart(file, lineCount)
        invariant RowsOf(lines) == ReadInto(rows, file, lineCount)
        invariant lineCount <= |Lines(file, MAX_LINES)| && (!got ==> pos == |file|)
        decreases MAX_LINES - lineCount, got
      {
        if lineCount < MAX_LINES { LineAt(file, MAX_LINES, lineCount); }
        ChunkNext(file, lineCount);
        got, pos := GetLine(lines, lineCount, file, pos);
        if got {
          lineCount := lineCount + 1;
        }
      }
      if lineCount < MAX_LINES { LineAt(file, MAX_LINES, lineCount); }
    }

    /** `editor_save_file`: writes every line and a newline after each. */
    method SaveFile(opens: bool) returns (status: int, file: string)
      requires Valid()
      modifies `modified
      ensures Valid() && Now() == old(Now())
      ensures status == (if filename == "" || !opens then -1 else 0)
      ensures status == 0 ==> file == Saved(View().text) && !modified
      ensures status == -1 ==> modified == old(modified)
    {
      hide UpToNul;
      file := "";
      if filename == "" || !opens { return -1, file; }
      ghost var text := View().text;
      var i := 0;
      while i < lineCount
        invariant 0 <= i && (i <= lineCount || i == 0) && Valid() && text == View().text
        invariant file == Saved(text[..i])
      {
        SavedConcat(text[..i], [text[i]]);
        SavedOne(text[i]);
        assert text[..i + 1] == text[..i] + [text[i]];
        file := Print(lines, i, file);
        i := i + 1;
      }
      assert text[..i] == text;
      modified := false;
      status := 0;
    }
  }

  /** At most 255 characters of a path are kept. */
  function Clipped(path: string): (name: string)
    ensures name <= path && |name| <= 255 && (|path| <= 255 ==> name == path) && (|path| > 255 ==> |name| == 255)
  {
    if |path| <= 255 then path else path[..255]
  }

  /** Does the key open a file? */
  predicate Opens(k: Key) { k.code in {15, 'O' as int} && k.file.Some? }

  lemma DialogTouches(b: Buffer, k: Key)
    requires InArray(b)
    ensures Bound(k) == Other || Bound(k).GoTo? || Bound(k).Open? ==> !Touches(b, k)
  {}

  /** Does the key count as a change of the text? */
  ghost predicate Touches(b: Buffer, k: Key)
    requires InArray(b)
  {
    match Bound(k)
    case Type(_) => |At(b, b.y)| < MAX_LINE_LEN - 1
    case Tab => |At(b, b.y)| < MAX_LINE_LEN - 1
    case Enter => b.count < MAX_LINES
    case Backspace => b.x > 0 || b.y > 0
    case _ => false
  }

  /** Saving and opening what was saved, from the keyboard: the text is the same exactly when it survives the file. */
  method SaveThenOpen(editor: Editor, path: string) returns (written: Option<string>)
    requires editor.Valid() && editor.running && editor.filename != "" && IsDoc(editor.View())
    modifies editor, editor.lines
    ensures editor.Valid() && written == Some(Saved(old(editor.View()).text)) && !editor.modified
    ensures editor.View().text == old(editor.View()).text <==> Survives(old(editor.View()).text, MAX_LINES)
    ensures editor.cursorY == old(editor.cursorY) && editor.cursorX == old(editor.cursorX)
    ensures editor.filename == Clipped(path)
  {
    var save := Key(16, 0, 0, None);
    RoundTrip(editor.View().text);
    TapsAnyway(editor.Now(), save);
    written := editor.HandleKey(save, path, false, true);
    var open := Key(15, 0, 0, written);
    TapsAnyway(editor.Now(), open);
    var nothing := editor.HandleKey(open, path, false, true);
  }

  lemma TapsAnyway(b: Buffer, k: Key)
    requires InArray(b) && k.code in {15, 16}
    ensures CanTap(b, k)
    ensures k.code == 16 ==> Tap(b, k) == b && (IsDoc(DocOf(b)) ==> Press(DocOf(b), k) == DocOf(b))
    ensures k.code == 15 && k.file.Some? && IsDoc(DocOf(b)) ==>
              Press(DocOf(b), k) == Doc(Loaded(k.file.value), b.y, b.x)
  {}

  /** With the cursor in its line the text is marked as modified by just the keys that change it. */
  lemma TouchesExactly(b: Buffer, k: Key)
    requires InArray(b) && IsDoc(DocOf(b)) && !Bound(k).Open?
    ensures Touches(b, k) <==> Press(DocOf(b), k).text != DocOf(b).text
  {
    hide UpToNul, IsText;
    var d := DocOf(b);
    match Bound(k)
    case Type(c) =>
      assert |Insert(d, c).text[d.y]| == |d.text[d.y]| + if |d.text[d.y]| < MAX_LINE_LEN - 1 then 1 else 0;
    case Tab => SpacesGrow(d, 4);
    case Enter => assert |Split(d).text| == |d.text| + if b.count < MAX_LINES then 1 else 0;
    case Backspace =>
      if b.x > 0 {
        assert |Delete(d).text[d.y]| == |d.text[d.y]| - 1;
      } else if b.y > 0 {
        assert |Delete(d).text| == |d.text| - 1;
      }
    case _ =>
  }

  lemma {:induction false} SpacesGrow(d: Doc, n: nat)
    requires IsDoc(d)
    ensures var e := Spaces(d, n);
            && e.y == d.y && |e.text[e.y]| >= |d.text[d.y]|
            && (|d.text[d.y]| >= MAX_LINE_LEN - 1 ==> e == d)
            && (|d.text[d.y]| < MAX_LINE_LEN - 1 && n > 0 ==> |e.text[e.y]| > |d.text[d.y]|)
    decreases n
  {
    hide IsText;
    if n > 0 {
      InsertIsFlatInsert(d, ' ');
      SpacesGrow(Insert(d, ' '), n - 1);
    }
  }
}

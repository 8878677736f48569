/** The notepad's array character for character: what every key does to it wherever the cursor is, also where
    opening a file has left it outside its line, and which keys stay inside the array. */
module NotepadRows {
  import opened Bits
  import opened CString
  import opened FlatText
  import opened TextFile
  import opened NotepadKeys

  /** The rows of the array, the number of lines, and the cursor. */
  datatype Buffer = Buffer(rows: seq<seq<char>>, count: int, y: int, x: int)

  ghost predicate IsRow(row: seq<char>) { |row| == MAX_LINE_LEN && Terminated(row) }

  ghost predicate AllRows(rows: seq<seq<char>>) {
    |rows| == MAX_LINES && forall i :: 0 <= i < |rows| ==> IsRow(rows[i])
  }

  /** Every row is terminated, and the cursor is in one of them or just behind it. */
  ghost predicate InArray(b: Buffer) {
    AllRows(b.rows) && b.count <= MAX_LINES && 0 <= b.y < MAX_LINES && 0 <= b.x <= MAX_LINE_LEN
  }

  lemma CursorRow(b: Buffer)
    requires InArray(b)
    ensures 0 <= b.y < |b.rows| && IsRow(b.rows[b.y])
  {}

  /** The strings of the first n rows. */
  ghost function Strings(rows: seq<seq<char>>, n: int): (text: seq<string>)
    requires n <= |rows|
    ensures |text| == if n < 0 then 0 else n
    ensures forall i :: 0 <= i < n ==> text[i] == UpToNul(rows[i])
  {
    seq(if n < 0 then 0 else n, i requires 0 <= i < n => UpToNul(rows[i]))
  }

  /** The text that the buffer holds. */
  ghost function DocOf(b: Buffer): Doc
    requires b.count <= |b.rows|
  {
    Doc(Strings(b.rows, b.count), b.y, b.x)
  }

  // ---------- edits inside a row ----------

  /** Typing c in column x: the characters from there on move right, and the string is terminated again. */
  function Typed(row: seq<char>, x: nat, c: char): seq<char> {
    var len := |UpToNul(row)|;
    seq(|row|, j requires 0 <= j < |row| =>
      if j == len + 1 then NUL else if j == x then c else if x < j <= len then row[j-1] else row[j])
  }

  /** Deleting before column x: the characters from there on move left, the NUL with them. */
  function Erased(row: seq<char>, x: nat): seq<char> {
    var len := |UpToNul(row)|;
    seq(|row|, j requires 0 <= j < |row| => if x - 1 <= j < len && j + 1 < |row| then row[j+1] else row[j])
  }

  lemma IsErased(before: seq<char>, after: seq<char>, x: nat)
    requires Terminated(before) && x > 0 && |after| == |before|
    requires forall j :: x - 1 <= j < |UpToNul(before)| ==> j + 1 < |before| && after[j] == before[j + 1]
    requires forall j :: 0 <= j < |before| && !(x - 1 <= j < |UpToNul(before)|) ==> after[j] == before[j]
    ensures after == Erased(before, x)
  {}

  function Cut(row: seq<char>, x: nat): seq<char>
    requires x < |row|
  {
    row[x := NUL]
  }

  /** `fgets` of a chunk into a row, and its newline dropped. */
  function Got(row: seq<char>, chunk: string): seq<char>
    requires |chunk| < |row|
  {
    var t := UpToNul(chunk);
    var read := Copied(row, chunk);
    if t != "" && t[|t| - 1] == '\n' then Cut(read, |t| - 1) else read
  }

  lemma CutString(row: seq<char>, x: nat)
    requires x < |row|
    ensures var t := UpToNul(row);
            && UpToNul(Cut(row, x)) == (if x <= |t| then t[..x] else t)
            && Terminated(Cut(row, x)) && |Cut(row, x)| == |row|
  {
    var t := UpToNul(row);
    StringIs(Cut(row, x), if x <= |t| then t[..x] else t);
  }

  /** Behind the end of the string a character is not seen. */
  lemma TypedString(row: seq<char>, x: nat, c: char)
    requires Terminated(row) && |UpToNul(row)| + 1 < |row| && x < |row| && c != NUL
    ensures var t := UpToNul(row);
            UpToNul(Typed(row, x, c)) == (if x <= |t| then t[..x] + [c] + t[x..] else t) && Terminated(Typed(row, x, c))
  {
    hide UpToNul;
    InRow(row);
    var t := UpToNul(row);
    StringIs(Typed(row, x, c), if x <= |t| then t[..x] + [c] + t[x..] else t);
  }

  lemma ErasedString(row: seq<char>, x: nat)
    requires Terminated(row) && x > 0
    ensures var t := UpToNul(row);
            UpToNul(Erased(row, x)) == (if x <= |t| then t[..x-1] + t[x..] else t) && Terminated(Erased(row, x))
  {
    hide UpToNul;
    InRow(row);
    var t := UpToNul(row);
    StringIs(Erased(row, x), if x <= |t| then t[..x-1] + t[x..] else t);
  }

  lemma GotString(row: seq<char>, chunk: string)
    requires |chunk| < |row|
    ensures UpToNul(Got(row, chunk)) == LineOf(chunk) && Terminated(Got(row, chunk)) && |Got(row, chunk)| == |row|
  {
    hide UpToNul;
    var t := UpToNul(chunk);
    StringIs(Copied(row, chunk), t);
    if t != "" && t[|t| - 1] == '\n' { CutString(Copied(row, chunk), |t| - 1); }
  }

  /** The string from column x on. */
  lemma Behind(row: seq<char>, x: nat)
    requires Terminated(row) && x <= |UpToNul(row)|
    ensures UpToNul(row[x..]) == UpToNul(row)[x..] && Terminated(row[x..])
  {
    InRow(row);
    StringIs(row[x..], UpToNul(row)[x..]);
  }

  // ---------- the keys ----------

  /** The string of row y. */
  ghost function At(b: Buffer, y: int): (t: string)
    requires InArray(b) && 0 <= y < MAX_LINES
    ensures |t| < MAX_LINE_LEN && NUL !in t && t == UpToNul(b.rows[y])
  {
    InRow(b.rows[y]);
    UpToNul(b.rows[y])
  }

  /** A full line takes no character; otherwise the cursor must be in its row. */
  ghost predicate CanType(b: Buffer)
    requires InArray(b)
  {
    b.x < MAX_LINE_LEN || |At(b, b.y)| == MAX_LINE_LEN - 1
  }

  ghost function TypeKey(b: Buffer, c: char): Buffer
    requires InArray(b)
  {
    if |At(b, b.y)| >= MAX_LINE_LEN - 1 then b
    else b.(rows := b.rows[b.y := Typed(b.rows[b.y], b.x, c)], x := b.x + 1)
  }

  lemma FullTakesNothing(b: Buffer, c: char)
    requires InArray(b)
    ensures |At(b, b.y)| >= MAX_LINE_LEN - 1 ==> TypeKey(b, c) == b
  {}

  /** At the start of a row its string must fit behind that of the row before. */
  ghost predicate CanErase(b: Buffer)
    requires InArray(b)
  {
    b.x == 0 && b.y > 0 ==> |At(b, b.y - 1)| + |At(b, b.y)| < MAX_LINE_LEN
  }

  ghost function EraseKey(b: Buffer): Buffer
    requires InArray(b) && CanErase(b)
  {
    if b.x > 0 then b.(rows := b.rows[b.y := Erased(b.rows[b.y], b.x)], x := b.x - 1)
    else if b.y > 0 then Buffer(RowsUp(b), b.count - 1, b.y - 1, |At(b, b.y - 1)|)
    else b
  }

  /** The string of each row behind row `from`, up to the last line, copied to the row before it. */
  ghost function Up(rows: seq<seq<char>>, from: int, count: int): (now: seq<seq<char>>)
    requires AllRows(rows) && 0 <= from && count <= MAX_LINES
    ensures |now| == MAX_LINES
  {
    seq(MAX_LINES, i requires 0 <= i < MAX_LINES => if from <= i < count - 1 then CopyRow(rows, i, i + 1) else rows[i])
  }

  /** The string of each row behind row y, up to the last line, copied to the row after it. */
  ghost function Down(rows: seq<seq<char>>, y: int, count: int): (now: seq<seq<char>>)
    requires AllRows(rows) && 0 <= y && count < MAX_LINES
    ensures |now| == MAX_LINES
  {
    seq(MAX_LINES, i requires 0 <= i < MAX_LINES => if y + 1 < i <= count then CopyRow(rows, i, i - 1) else rows[i])
  }

  /** Row i after the string of row j has been copied into it. */
  ghost function CopyRow(rows: seq<seq<char>>, i: int, j: int): (row: seq<char>)
    requires AllRows(rows) && 0 <= i < MAX_LINES && 0 <= j < MAX_LINES
    ensures IsRow(row) && UpToNul(row) == UpToNul(rows[j])
  {
    InRow(rows[j]);
    CopiedString(rows[i], UpToNul(rows[j]));
    Copied(rows[i], UpToNul(rows[j]))
  }

  /** The cursor's row is joined to the row before, and the rows below it each move up by one. */
  ghost function RowsUp(b: Buffer): (rows: seq<seq<char>>)
    requires InArray(b) && CanErase(b) && b.x == 0 && b.y > 0
    ensures |rows| == MAX_LINES
  {
    JoinStays(b.rows, b.y);
    Up(b.rows[b.y - 1 := Joined(b.rows[b.y - 1], At(b, b.y))], b.y, b.count)
  }

  lemma JoinStays(rows: seq<seq<char>>, y: int)
    requires AllRows(rows) && 0 < y < MAX_LINES
    requires |UpToNul(rows[y - 1])| + |UpToNul(rows[y])| < MAX_LINE_LEN
    ensures var row := Joined(rows[y - 1], UpToNul(rows[y]));
            AllRows(rows[y - 1 := row]) && UpToNul(row) == UpToNul(rows[y - 1]) + UpToNul(rows[y])
  {
    hide UpToNul;
    CopiedString(rows[y - 1], UpToNul(rows[y - 1]) + UpToNul(rows[y]));
  }

  /** There must be a row below; the rest of the cursor's row must end in it, and be terminated below. */
  ghost predicate CanBreak(b: Buffer)
    requires InArray(b)
  {
    b.count < MAX_LINES ==>
      && b.y < MAX_LINES - 1 && Terminated(b.rows[b.y][b.x..])
      && (|UpToNul(b.rows[b.y][b.x..])| < MAX_LINE_LEN - 1 || b.rows[b.y + 1][MAX_LINE_LEN - 1] == NUL)
  }

  ghost function BreakKey(b: Buffer): Buffer
    requires InArray(b) && CanBreak(b)
  {
    if b.count >= MAX_LINES then b else Buffer(RowsDown(b), b.count + 1, b.y + 1, 0)
  }

  /** The rows below the cursor each move down by one, and the rest of its row goes to the row below it. */
  ghost function RowsDown(b: Buffer): (rows: seq<seq<char>>)
    requires InArray(b) && CanBreak(b) && b.count < MAX_LINES
    ensures |rows| == MAX_LINES
  {
    InRow(b.rows[b.y][b.x..]);
    Down(b.rows, b.y, b.count)
      [b.y + 1 := Padded(b.rows[b.y + 1], UpToNul(b.rows[b.y][b.x..]), MAX_LINE_LEN - 1)]
      [b.y := Cut(b.rows[b.y], b.x)]
  }

  ghost function MoveKey(b: Buffer, dx: int, dy: int): Buffer
    requires InArray(b)
  {
    var y := if 0 <= b.y + dy < b.count then b.y + dy else b.y;
    var max := |At(b, y)|;
    var x := if dx > 0 then (if b.x + dx <= max then b.x + dx else max)
             else if dx < 0 then (if b.x + dx >= 0 then b.x + dx else 0)
             else if b.x > max then max else b.x;
    b.(y := y, x := x)
  }

  /** The rows after a file has been read into them. */
  ghost function OpenKey(b: Buffer, file: string): Buffer
    requires InArray(b)
  {
    var n := |Lines(file, MAX_LINES)|;
    if n == 0 then b.(rows := b.rows[0 := Cut(b.rows[0], 0)], count := 1)
    else b.(rows := ReadInto(b.rows, file, n), count := n)
  }

  /** The first n rows after the first n reads. */
  ghost function ReadInto(rows: seq<seq<char>>, file: string, n: nat): (read: seq<seq<char>>)
    requires AllRows(rows)
    ensures |read| == MAX_LINES
  {
    seq(MAX_LINES, i requires 0 <= i < MAX_LINES => if i < n then Got(rows[i], Chunk(file, i)) else rows[i])
  }

  lemma NothingReadInto(rows: seq<seq<char>>, file: string)
    requires AllRows(rows)
    ensures ReadInto(rows, file, 0) == rows
  {}

  /** Read number i of the file. */
  ghost function Chunk(file: string, i: nat): (chunk: string)
    ensures |chunk| < MAX_LINE_LEN
  {
    var rest := file[ChunkStart(file, i)..];
    rest[..Taken(rest, MAX_LINE_LEN - 1)]
  }

  lemma ChunkNext(file: string, i: nat)
    ensures ChunkStart(file, i) <= ChunkStart(file, i + 1)
    ensures Chunk(file, i) == file[ChunkStart(file, i)..ChunkStart(file, i + 1)]
  {
    hide Taken, ChunkStart;
    StartNext(file, i);
  }

  ghost predicate CanSpace(b: Buffer, n: nat)
    requires InArray(b)
    decreases n
  {
    n == 0 || (CanType(b) && (TypeStays(b, ' '); CanSpace(TypeKey(b, ' '), n - 1)))
  }

  ghost function SpaceKey(b: Buffer, n: nat): (e: Buffer)
    requires InArray(b) && CanSpace(b, n)
    ensures InArray(e)
    decreases n
  {
    if n == 0 then b
    else
      TypeStays(b, ' ');
      SpaceKey(TypeKey(b, ' '), n - 1)
  }

  /** The key stays inside the array. */
  ghost predicate CanTap(b: Buffer, k: Key)
    requires InArray(b)
  {
    match Bound(k)
    case Type(c) => CanType(b)
    case Tab => CanSpace(b, 4)
    case Enter => CanBreak(b)
    case Backspace => CanErase(b)
    case _ => !FindsNext(k)
  }

  /** What a key does to the array. */
  ghost function Tap(b: Buffer, k: Key): Buffer
    requires InArray(b) && CanTap(b, k)
  {
    match Bound(k)
    case Type(c) => TypeKey(b, c)
    case Tab => SpaceKey(b, 4)
    case Enter => BreakKey(b)
    case Backspace => EraseKey(b)
    case Arrow(dx, dy) => MoveKey(b, dx, dy)
    case Home => b.(x := 0)
    case End => b.(x := |At(b, b.y)|)
    case GoTo(line) => if 0 < line <= b.count then b.(y := line - 1, x := 0) else b
    case Open(file) => OpenKey(b, file)
    case Other => b
  }

  lemma TapDialog(b: Buffer, k: Key)
    requires InArray(b) && CanTap(b, k)
    ensures Bound(k) == Other ==> Tap(b, k) == b
    ensures Bound(k).Open? ==> Tap(b, k) == OpenKey(b, Bound(k).file)
    ensures Bound(k).GoTo? && 0 < Bound(k).line <= b.count ==> Tap(b, k) == b.(y := Bound(k).line - 1, x := 0)
    ensures Bound(k).GoTo? && !(0 < Bound(k).line <= b.count) ==> Tap(b, k) == b
  {}

  // ---------- every key that can be pressed stays in the array ----------

  lemma TypeStays(b: Buffer, c: char)
    requires InArray(b) && CanType(b) && c != NUL
    ensures InArray(TypeKey(b, c))
  {
    if |At(b, b.y)| < MAX_LINE_LEN - 1 { TypedString(b.rows[b.y], b.x, c); }
  }

  lemma EraseStays(b: Buffer)
    requires InArray(b) && CanErase(b)
    ensures InArray(EraseKey(b))
  {
    if b.x > 0 {
      ErasedString(b.rows[b.y], b.x);
    } else if b.y > 0 {
      forall i | 0 <= i < MAX_LINES ensures IsRow(RowsUp(b)[i]) { RowUp(b, i); }
    }
  }

  /** Row i after the rows have moved up, and its string. */
  lemma RowUp(b: Buffer, i: nat)
    requires InArray(b) && CanErase(b) && b.x == 0 && b.y > 0 && i < MAX_LINES
    ensures IsRow(RowsUp(b)[i])
    ensures UpToNul(RowsUp(b)[i]) == if i == b.y - 1 then At(b, b.y - 1) + At(b, b.y)
                                     else if b.y <= i < b.count - 1 then At(b, i + 1) else At(b, i)
  {
    hide UpToNul, Joined;
    JoinStays(b.rows, b.y);
  }

  lemma BreakStays(b: Buffer)
    requires InArray(b) && CanBreak(b)
    ensures InArray(BreakKey(b))
  {
    if b.count < MAX_LINES {
      forall i | 0 <= i < MAX_LINES ensures IsRow(RowsDown(b)[i]) { RowDown(b, i); }
    }
  }

  /** Row i after the rows have moved down, and its string. */
  lemma RowDown(b: Buffer, i: nat)
    requires InArray(b) && CanBreak(b) && b.count < MAX_LINES && i < MAX_LINES
    ensures IsRow(RowsDown(b)[i])
    ensures UpToNul(RowsDown(b)[i]) == if i == b.y then (if b.x <= |At(b, i)| then At(b, i)[..b.x] else At(b, i))
                                       else if i == b.y + 1 then UpToNul(b.rows[b.y][b.x..])
                                       else if b.y + 1 < i <= b.count then At(b, i - 1) else At(b, i)
  {
    hide UpToNul, Cut, Padded;
    InRow(b.rows[b.y][b.x..]);
    CutString(b.rows[b.y], b.x);
    PaddedString(b.rows[b.y + 1], UpToNul(b.rows[b.y][b.x..]), MAX_LINE_LEN - 1);
  }

  lemma OpenStays(b: Buffer, file: string)
    requires InArray(b)
    ensures InArray(OpenKey(b, file))
  {
    LinesPlain(file, MAX_LINES);
    CutString(b.rows[0], 0);
    forall i | 0 <= i < |Lines(file, MAX_LINES)| ensures IsRow(Got(b.rows[i], Chunk(file, i))) {
      GotString(b.rows[i], Chunk(file, i));
    }
  }

  lemma TapStays(b: Buffer, k: Key)
    requires InArray(b) && CanTap(b, k)
    ensures InArray(Tap(b, k))
  {
    hide CanType, CanErase, CanBreak, TypeKey, EraseKey, BreakKey, OpenKey, SpaceKey, CanSpace;
    match Bound(k)
    case Type(c) => TypeStays(b, c);
    case Enter => BreakStays(b);
    case Backspace => EraseStays(b);
    case Open(file) => OpenStays(b, file);
    case _ =>
  }

  /** A run of keys, each of which can be pressed where it is pressed, from b to e. */
  ghost predicate Taps(b: Buffer, keys: seq<Key>, e: Buffer)
    requires InArray(b)
    decreases |keys|
  {
    if keys == [] then e == b
    else CanTap(b, keys[0]) && (TapStays(b, keys[0]); Taps(Tap(b, keys[0]), keys[1..], e))
  }

  lemma {:induction false} TapsStay(b: Buffer, keys: seq<Key>, e: Buffer)
    requires InArray(b) && Taps(b, keys, e)
    ensures InArray(e)
    decreases |keys|
  {
    if keys != [] {
      TapStays(b, keys[0]);
      TapsStay(Tap(b, keys[0]), keys[1..], e);
    }
  }

  // ---------- with the cursor in its line the rows hold the lines ----------

  /** The last place of every row is still NUL, as at the start. */
  ghost predicate Tidy(b: Buffer) {
    forall i :: 0 <= i < |b.rows| ==> |b.rows[i]| == MAX_LINE_LEN && b.rows[i][MAX_LINE_LEN - 1] == NUL
  }

  lemma OneRow(rows: seq<seq<char>>, y: nat, row: seq<char>, n: int)
    requires AllRows(rows) && y < MAX_LINES && n <= MAX_LINES
    ensures y < n ==> Strings(rows[y := row], n) == Strings(rows, n)[y := UpToNul(row)]
    ensures y >= n || UpToNul(row) == UpToNul(rows[y]) ==> Strings(rows[y := row], n) == Strings(rows, n)
  {}

  lemma TypeRefines(b: Buffer, c: char)
    requires InArray(b) && IsDoc(DocOf(b)) && c != NUL
    ensures CanType(b) && DocOf(TypeKey(b, c)) == Insert(DocOf(b), c)
    ensures Tidy(b) ==> Tidy(TypeKey(b, c))
  {
    hide UpToNul, IsText;
    var t := At(b, b.y);
    if |t| < MAX_LINE_LEN - 1 {
      TypedString(b.rows[b.y], b.x, c);
      OneRow(b.rows, b.y, Typed(b.rows[b.y], b.x, c), b.count);
    }
  }

  lemma EraseRefines(b: Buffer)
    requires InArray(b) && IsDoc(DocOf(b))
    ensures CanErase(b) <==> JoinFits(DocOf(b))
    ensures CanErase(b) ==> DocOf(EraseKey(b)) == Delete(DocOf(b))
    ensures CanErase(b) && Tidy(b) ==> Tidy(EraseKey(b))
  {
    hide UpToNul, IsText;
    if b.x > 0 {
      ErasedString(b.rows[b.y], b.x);
      OneRow(b.rows, b.y, Erased(b.rows[b.y], b.x), b.count);
    } else if b.y > 0 && CanErase(b) {
      RowsUpHold(b);
      if Tidy(b) { RowsUpTidy(b); }
    }
  }

  lemma RowsUpHold(b: Buffer)
    requires InArray(b) && CanErase(b) && b.x == 0 && 0 < b.y < b.count
    ensures var text := Strings(b.rows, b.count);
            Strings(RowsUp(b), b.count - 1) == text[..b.y-1] + [text[b.y-1] + text[b.y]] + text[b.y+1..]
  {
    hide UpToNul, RowsUp, CanErase;
    var text, now := Strings(b.rows, b.count), Strings(RowsUp(b), b.count - 1);
    var joined := text[..b.y-1] + [text[b.y-1] + text[b.y]] + text[b.y+1..];
    forall i | 0 <= i < b.count - 1 ensures now[i] == joined[i] {
      RowUp(b, i);
      assert joined[i] == if i == b.y - 1 then text[i] + text[b.y] else if i >= b.y then text[i + 1] else text[i];
    }
    assert |joined| == b.count - 1;
  }

  lemma RowsUpTidy(b: Buffer)
    requires InArray(b) && CanErase(b) && b.x == 0 && b.y > 0 && Tidy(b)
    ensures Tidy(b.(rows := RowsUp(b)))
  {
    hide UpToNul, RowsUp, CanErase;
    forall i | 0 <= i < MAX_LINES
      ensures |RowsUp(b)[i]| == MAX_LINE_LEN && RowsUp(b)[i][MAX_LINE_LEN - 1] == NUL
    {
      RowUpEnd(b, i);
    }
  }

  lemma RowUpEnd(b: Buffer, i: nat)
    requires InArray(b) && CanErase(b) && b.x == 0 && b.y > 0 && i < MAX_LINES && b.rows[i][MAX_LINE_LEN - 1] == NUL
    ensures |RowsUp(b)[i]| == MAX_LINE_LEN && RowsUp(b)[i][MAX_LINE_LEN - 1] == NUL
  {
    hide UpToNul, Copied;
    JoinStays(b.rows, b.y);
    var t := if i == b.y - 1 then At(b, i) + At(b, b.y) else if i < MAX_LINES - 1 then At(b, i + 1) else "";
    CopiedEnd(b.rows[i], t);
  }

  lemma CopiedEnd(row: seq<char>, t: string)
    requires |t| < |row| && row[|row| - 1] == NUL
    ensures |Copied(row, t)| == |row| && Copied(row, t)[|row| - 1] == NUL
  {}

  lemma GotEnd(row: seq<char>, chunk: string)
    requires |chunk| < |row| && row[|row| - 1] == NUL
    ensures |Got(row, chunk)| == |row| && Got(row, chunk)[|row| - 1] == NUL
  {
    hide UpToNul;
  }

  lemma BreakRefines(b: Buffer)
    requires InArray(b) && IsDoc(DocOf(b))
    ensures Tidy(b) ==> CanBreak(b) && Tidy(BreakKey(b))
    ensures CanBreak(b) ==> DocOf(BreakKey(b)) == Split(DocOf(b))
  {
    hide UpToNul, IsText, RowsDown;
    Behind(b.rows[b.y], b.x);
    if CanBreak(b) && b.count < MAX_LINES {
      RowsDownHold(b);
      if Tidy(b) { RowsDownTidy(b); }
    }
  }

  lemma RowsDownHold(b: Buffer)
    requires InArray(b) && CanBreak(b) && b.y < b.count < MAX_LINES && b.x <= |At(b, b.y)|
    ensures var text := Strings(b.rows, b.count);
            Strings(RowsDown(b), b.count + 1)
            == text[..b.y] + [text[b.y][..b.x], text[b.y][b.x..]] + text[b.y+1..]
  {
    hide UpToNul, RowsDown, CanBreak;
    Behind(b.rows[b.y], b.x);
    var text, now := Strings(b.rows, b.count), Strings(RowsDown(b), b.count + 1);
    var split := text[..b.y] + [text[b.y][..b.x], text[b.y][b.x..]] + text[b.y+1..];
    forall i | 0 <= i < b.count + 1 ensures now[i] == split[i] {
      RowDown(b, i);
      assert split[i] == if i == b.y then text[i][..b.x] else if i == b.y + 1 then text[b.y][b.x..]
                         else if i > b.y + 1 then text[i - 1] else text[i];
    }
    assert |split| == b.count + 1;
  }

  lemma RowsDownTidy(b: Buffer)
    requires InArray(b) && CanBreak(b) && b.count < MAX_LINES && Tidy(b)
    ensures Tidy(b.(rows := RowsDown(b)))
  {
    hide UpToNul;
    InRow(b.rows[b.y][b.x..]);
    forall i | 0 <= i < MAX_LINES
      ensures |RowsDown(b)[i]| == MAX_LINE_LEN && RowsDown(b)[i][MAX_LINE_LEN - 1] == NUL
    {}
  }

  /** Wherever the cursor is, the rows hold the lines of the file after it has been opened. */
  lemma OpenRefines(b: Buffer, file: string)
    requires InArray(b)
    ensures InArray(OpenKey(b, file)) && DocOf(OpenKey(b, file)) == Doc(Loaded(file), b.y, b.x)
    ensures Tidy(b) ==> Tidy(OpenKey(b, file))
  {
    hide UpToNul, LineOf, Taken, Got, Cut;
    OpenStays(b, file);
    var text := Lines(file, MAX_LINES);
    LinesPlain(file, MAX_LINES);
    CutString(b.rows[0], 0);
    forall i | 0 <= i < |text| ensures UpToNul(Got(b.rows[i], Chunk(file, i))) == text[i] {
      GotString(b.rows[i], Chunk(file, i));
      LineAt(file, MAX_LINES, i);
    }
    if Tidy(b) { OpenTidy(b, file); }
  }

  lemma OpenTidy(b: Buffer, file: string)
    requires InArray(b) && Tidy(b)
    ensures Tidy(OpenKey(b, file))
  {
    hide UpToNul, Got, Lines, Taken;
    forall i | 0 <= i < MAX_LINES
      ensures |Got(b.rows[i], Chunk(file, i))| == MAX_LINE_LEN
      ensures Got(b.rows[i], Chunk(file, i))[MAX_LINE_LEN - 1] == NUL
    {
      GotEnd(b.rows[i], Chunk(file, i));
    }
  }

  lemma {:induction false} SpaceRefines(b: Buffer, n: nat)
    requires InArray(b) && IsDoc(DocOf(b))
    ensures CanSpace(b, n) && DocOf(SpaceKey(b, n)) == Spaces(DocOf(b), n)
    ensures Tidy(b) ==> Tidy(SpaceKey(b, n))
    decreases n
  {
    hide TypeKey, CanType, IsText, Insert, Tidy;
    if n > 0 {
      TypeRefines(b, ' ');
      TypeStays(b, ' ');
      InsertIsFlatInsert(DocOf(b), ' ');
      SpaceRefines(TypeKey(b, ' '), n - 1);
    }
  }

  /** A key does to the rows what it does to the lines they hold. */
  lemma TapRefines(b: Buffer, k: Key)
    requires InArray(b) && IsDoc(DocOf(b)) && CanTap(b, k)
    ensures InArray(Tap(b, k)) && DocOf(Tap(b, k)) == Press(DocOf(b), k)
    ensures Tidy(b) ==> Tidy(Tap(b, k))
  {
    hide CanType, CanErase, CanBreak, TypeKey, EraseKey, BreakKey, OpenKey, SpaceKey, CanSpace, Spaces, Insert, Delete,
         Split, IsText, Loaded;
    TapStays(b, k);
    match Bound(k)
    case Type(c) => TypeRefines(b, c);
    case Tab => SpaceRefines(b, 4);
    case Enter => BreakRefines(b);
    case Backspace => EraseRefines(b);
    case Open(file) => OpenRefines(b, file);
    case _ =>
  }

  /** With the cursor in its line, and no character ever typed into the last place of a row, only a join that
      does not fit leaves the array. */
  lemma CanTapExactly(b: Buffer, k: Key)
    requires InArray(b) && IsDoc(DocOf(b)) && Tidy(b) && !FindsNext(k)
    ensures CanTap(b, k) <==> (Bound(k).Backspace? ==> JoinFits(DocOf(b)))
  {
    hide CanType, CanErase, CanBreak, TypeKey, EraseKey, BreakKey, OpenKey, SpaceKey, CanSpace, IsText, Loaded;
    match Bound(k)
    case Type(c) => TypeRefines(b, c);
    case Tab => SpaceRefines(b, 4);
    case Enter => BreakRefines(b);
    case Backspace => EraseRefines(b);
    case _ =>
  }

  // ---------- with the cursor outside its line ----------

  /** Typing changes the text exactly when the cursor is in its line and the line is not full; elsewhere the
      character is lost, behind the end of a row's string or in a row that holds no line. */
  lemma TypedIsSeen(b: Buffer, c: char)
    requires InArray(b) && CanType(b) && c != NUL
    ensures Strings(TypeKey(b, c).rows, b.count) != Strings(b.rows, b.count) <==>
              CursorInLine(DocOf(b)) && |At(b, b.y)| < MAX_LINE_LEN - 1
  {
    hide UpToNul;
    var t := At(b, b.y);
    if |t| < MAX_LINE_LEN - 1 {
      TypedString(b.rows[b.y], b.x, c);
      OneRow(b.rows, b.y, Typed(b.rows[b.y], b.x, c), b.count);
      if CursorInLine(DocOf(b)) {
        assert |Strings(TypeKey(b, c).rows, b.count)[b.y]| == |t| + 1;
        assert Strings(b.rows, b.count)[b.y] == t;
      }
    }
  }

  /** In the memory from the start of a row on, the row and what follows it, typing changes nothing behind the
      row exactly when the cursor is in it. */
  lemma TypingStaysInRow(memory: seq<char>, x: nat)
    requires |memory| > MAX_LINE_LEN && x <= MAX_LINE_LEN
    requires NUL in memory[..MAX_LINE_LEN] && |UpToNul(memory[..MAX_LINE_LEN])| < MAX_LINE_LEN - 1
    ensures UpToNul(memory) == UpToNul(memory[..MAX_LINE_LEN])
    ensures (forall c :: c != NUL ==> Typed(memory, x, c)[MAX_LINE_LEN..] == memory[MAX_LINE_LEN..])
            <==> x < MAX_LINE_LEN
    ensures x < MAX_LINE_LEN ==> forall c :: Typed(memory, x, c)[..MAX_LINE_LEN] == Typed(memory[..MAX_LINE_LEN], x, c)
  {
    hide UpToNul;
    var row := memory[..MAX_LINE_LEN];
    var t := UpToNul(row);
    InRow(row);
    StringIs(memory, t);
    if x == MAX_LINE_LEN {
      var c := if memory[x] == 'a' then 'b' else 'a';
      assert Typed(memory, x, c)[MAX_LINE_LEN..][0] == c;
    }
  }

  /** A file whose first line is empty, opened with the cursor in the last column of the first row: the first
      letter is lost, and the second leaves the row. */
  lemma LettersLeaveRow(b: Buffer, c: char)
    requires InArray(b) && b.y == 0 && b.x == MAX_LINE_LEN - 1 && c != NUL
    ensures var o := OpenKey(b, "\nabc\n");
            && InArray(o) && o.count <= |o.rows| && DocOf(o).text == Loaded("\nabc\n") && CanType(o)
            && TypeKey(o, c).count <= |TypeKey(o, c).rows|
            && DocOf(TypeKey(o, c)).text == DocOf(o).text && InArray(TypeKey(o, c)) && !CanType(TypeKey(o, c))
  {
    var file := "\nabc\n";
    var o := OpenKey(b, file);
    OpenRefines(b, file);
    EmptyFirst(file);
    TypeStays(o, c);
    TypedString(o.rows[0], o.x, c);
    TypedIsSeen(o, c);
  }

  lemma EmptyFirst(file: string)
    requires file != "" && file[0] == '\n'
    ensures Loaded(file) != [] && Loaded(file)[0] == ""
  {
    NothingRead(file, MAX_LINE_LEN - 1);
    LinesStep(file, MAX_LINES);
  }

  /** Deleting at the start of a row below the text removes the last line, whichever it is. */
  lemma ErasedBelow(b: Buffer)
    requires InArray(b) && CanErase(b) && b.x == 0 && b.y >= b.count > 0
    ensures DocOf(EraseKey(b)).text == DocOf(b).text[..b.count - 1]
  {
    forall i | 0 <= i < b.count - 1 ensures UpToNul(RowsUp(b)[i]) == At(b, i) { RowUp(b, i); }
  }

  /** The cursor is in a line. */
  ghost predicate HasLine(b: Buffer) { InArray(b) && CursorInLine(DocOf(b)) }

  predicate IsArrow(k: Key) { Bound(k).Arrow? }

  /** Arrow keys bring the cursor back into a line exactly when it is at most one row below the text. */
  lemma ArrowsReturn(b: Buffer)
    requires InArray(b) && b.count > 0
    ensures (exists keys, e :: Taps(b, keys, e) && (forall k :: k in keys ==> IsArrow(k)) && HasLine(e))
            <==> b.y <= b.count
  {
    if b.y <= b.count {
      var keys, e := OneUp(b);
    }
    forall keys, e | Taps(b, keys, e) && (forall k :: k in keys ==> IsArrow(k)) && HasLine(e)
      ensures b.y <= b.count
    {
      if b.y > b.count { ArrowsStayBelow(b, keys, e); }
    }
  }

  lemma OneUp(b: Buffer) returns (keys: seq<Key>, e: Buffer)
    requires InArray(b) && 0 < b.count && b.y <= b.count
    ensures Taps(b, keys, e) && (forall k :: k in keys ==> IsArrow(k)) && HasLine(e)
  {
    hide UpToNul;
    var up := Key(0, 72, 0, None);
    keys, e := [up], MoveKey(b, 0, -1);
    TapStays(b, up);
    assert Bound(up) == Arrow(0, -1) && Tap(b, up) == e;
    assert Taps(e, [], e) && keys[1..] == [];
  }

  lemma {:induction false} ArrowsStayBelow(b: Buffer, keys: seq<Key>, e: Buffer)
    requires InArray(b) && b.y > b.count && Taps(b, keys, e) && forall k :: k in keys ==> IsArrow(k)
    ensures e.y == b.y && e.count == b.count && e.rows == b.rows
    decreases |keys|
  {
    if keys != [] {
      assert IsArrow(keys[0]);
      TapStays(b, keys[0]);
      ArrowsStayBelow(Tap(b, keys[0]), keys[1..], e);
    }
  }
}

/** The notepad's keys: what each key code does to the lines and the cursor, one key and whole runs. */
module NotepadKeys {
  import opened Bits
  import opened FlatText
  import opened TextFile

  /** A key code, and what is read after it: an extended code after 0, a line number, and the contents
      of the file to open, or None when no name is given or the file does not open. */
  datatype Key = Key(code: int, ext: int, line: int, file: Option<string>)

  datatype Action = Type(c: char) | Tab | Enter | Backspace | Arrow(dx: int, dy: int) | Home | End | GoTo(line: int)
                  | Open(file: string) | Other

  const DIALOG_LETTERS: string := "oOpPqQsSgG"

  /** What a key is bound to. `Other` keys leave lines and cursor alone: saving, quitting, asking for a search
      pattern, scrolling, the lower-case dialog letters and unbound codes. */
  function Bound(k: Key): Action {
    if k.code in {15, 'O' as int} then (if k.file.Some? then Open(k.file.value) else Other)
    else if k.code in {7, 'G' as int} then GoTo(k.line)
    else if k.code in {'o' as int, 16, 'p' as int, 'P' as int, 17, 'q' as int, 'Q' as int,
                       19, 's' as int, 'S' as int, 'g' as int} then Other
    else if k.code == 0 then BoundExtended(k.ext)
    else if k.code in {13, 10} then Enter
    else if k.code in {8, 127} then Backspace
    else if k.code == 9 then Tab
    else if 32 <= k.code < 127 then Type(k.code as char)
    else Other
  }

  /** The keys of the dialogs. */
  lemma DialogKeys(k: Key)
    ensures k.code == 15 || k.code == 'O' as int ==>
              Bound(k) == if k.file.Some? then Open(k.file.value) else Other
    ensures k.code == 7 || k.code == 'G' as int ==> Bound(k) == GoTo(k.line)
    ensures k.code in {16, 17, 19} || (0 <= k.code < 127 && k.code as char in {'P', 'Q', 'S'}) ==> Bound(k) == Other
    ensures 0 <= k.code < 127 && k.code as char in {'o', 'p', 'q', 's', 'g'} ==> Bound(k) == Other
  {}

  function BoundExtended(ext: int): Action {
    match ext
    case 72 => Arrow(0, -1)
    case 80 => Arrow(0, 1)
    case 75 => Arrow(-1, 0)
    case 77 => Arrow(1, 0)
    case 71 => Home
    case 79 => End
    case 83 => Backspace
    case _ => Other
  }

  /** The key that repeats a search, which the model leaves out. */
  predicate FindsNext(k: Key) { k.code == 0 && k.ext == 61 }

  function Spaces(d: Doc, n: nat): (e: Doc)
    requires IsDoc(d)
    ensures IsDoc(e)
    decreases n
  {
    if n == 0 then d
    else
      InsertIsFlatInsert(d, ' ');
      Spaces(Insert(d, ' '), n - 1)
  }

  function Press(d: Doc, k: Key): Doc
    requires IsDoc(d)
  {
    match Bound(k)
    case Type(c) => Insert(d, c)
    case Tab => Spaces(d, 4)
    case Enter => Split(d)
    case Backspace => Delete(d)
    case Arrow(dx, dy) => Move(d, dx, dy)
    case Home => d.(x := 0)
    case End => d.(x := |d.text[d.y]|)
    case GoTo(line) => if 0 < line <= |d.text| then Doc(d.text, line - 1, 0) else d
    case Open(file) => Doc(Loaded(file), d.y, d.x)
    case Other => d
  }

  /** What a key needs: a join that fits, and bytes in the file to open that leave room for the cursor. */
  predicate Possible(d: Doc, k: Key)
    requires CursorInLine(d)
  {
    && !FindsNext(k)
    && (Bound(k).Backspace? ==> JoinFits(d))
    && (Bound(k).Open? ==> RoomFor(Bound(k).file, d.y, d.x))
  }

  // ---------- typing ----------

  /** Where the line has room, a printable character types itself exactly when it is none of the ten letters
      that belong to dialogs. */
  lemma TypesItself(d: Doc, k: Key)
    requires IsDoc(d) && 32 <= k.code < 127 && |d.text[d.y]| < MAX_LINE_LEN - 1
    ensures Press(d, k) == Insert(d, k.code as char) <==> k.code as char !in DIALOG_LETTERS
  {
    TypedLetters(k.code as char);
    assert Insert(d, k.code as char).x == d.x + 1;
  }

  lemma TypedLetters(c: char)
    ensures c in DIALOG_LETTERS <==> c in {'o', 'O', 'p', 'P', 'q', 'Q', 's', 'S', 'g', 'G'}
  {
    assert DIALOG_LETTERS == ['o', 'O', 'p', 'P', 'q', 'Q', 's', 'S', 'g', 'G'];
  }

  /** The five lower-case ones do nothing at all. */
  lemma LowerCaseDoesNothing(d: Doc, k: Key)
    requires IsDoc(d) && 32 <= k.code < 127 && k.code as char in {'o', 'p', 'q', 's', 'g'}
    ensures Press(d, k) == d
  {}

  /** On an empty document the key s types nothing. */
  lemma LetterIsLost()
    ensures var d, k := Doc([""], 0, 0), Key('s' as int, 0, 0, None);
            IsDoc(d) && Press(d, k) == d && Insert(d, 's') == Doc(["s"], 0, 1) && Press(d, k) != Insert(d, 's')
  {
    assert Plain("");
    assert ""[..0] + ['s'] + ""[0..] == "s";
  }

  /** The other editing keys, by code: carriage return and line feed, backspace, tab, and the extended codes of
      Delete, Home, End and the arrows. */
  lemma EditingKeys(d: Doc, k: Key)
    requires IsDoc(d)
    ensures k.code == 13 || k.code == 10 ==> Press(d, k) == Split(d)
    ensures k.code == 8 || k.code == 127 || (k.code == 0 && k.ext == 83) ==> Press(d, k) == Delete(d)
    ensures k.code == 9 ==> Press(d, k) == Insert(Insert(Insert(Insert(d, ' '), ' '), ' '), ' ')
    ensures k.code == 0 && k.ext == 71 ==> Press(d, k) == Doc(d.text, d.y, 0)
    ensures k.code == 0 && k.ext == 79 ==> Press(d, k) == Doc(d.text, d.y, |d.text[d.y]|)
  {
    hide Insert, IsDoc;
    FourSpaces(d);
  }

  lemma FourSpaces(d: Doc)
    requires IsDoc(d)
    ensures IsDoc(Insert(d, ' ')) && IsDoc(Insert(Insert(d, ' '), ' '))
    ensures IsDoc(Insert(Insert(Insert(d, ' '), ' '), ' '))
    ensures Spaces(d, 4) == Insert(Insert(Insert(Insert(d, ' '), ' '), ' '), ' ')
  {
    hide Insert, Flat, Offset;
    InsertIsFlatInsert(d, ' ');
    InsertIsFlatInsert(Insert(d, ' '), ' ');
    InsertIsFlatInsert(Insert(Insert(d, ' '), ' '), ' ');
    assert Spaces(d, 4) == Spaces(Insert(d, ' '), 3);
    assert Spaces(Insert(d, ' '), 3) == Spaces(Insert(Insert(d, ' '), ' '), 2);
  }

  /** The arrows, and going to a line: up and down change the line where there is one, left and right the column. */
  lemma ArrowKeys(d: Doc, k: Key)
    requires IsDoc(d)
    ensures var e := Press(d, k);
            && (k.code == 0 && k.ext == 72 ==> e.text == d.text && e.y == if d.y > 0 then d.y - 1 else d.y)
            && (k.code == 0 && k.ext == 80 ==> e.text == d.text && e.y == if d.y < |d.text| - 1 then d.y + 1 else d.y)
            && (k.code == 0 && k.ext == 75 ==> e == Doc(d.text, d.y, if d.x > 0 then d.x - 1 else 0))
            && (k.code == 0 && k.ext == 77 ==> e == Doc(d.text, d.y, if d.x < |d.text[d.y]| then d.x + 1 else d.x))
            && (k.code == 7 || k.code == 'G' as int ==>
                  e == if 1 <= k.line <= |d.text| then Doc(d.text, k.line - 1, 0) else d)
    ensures var e := Press(d, k);
            k.code == 0 && k.ext in {72, 80} ==> e.x == if d.x <= |d.text[e.y]| then d.x else |d.text[e.y]|
  {}

  // ---------- opening a file ----------

  /** Opening a file keeps the cursor. It is then in its line exactly when the file goes on where that line
      starts, and the characters up to the cursor are there and are neither newlines nor NULs. */
  lemma OpenKeepsCursor(d: Doc, file: string)
    requires IsDoc(d)
    ensures IsText(Loaded(file))
    ensures CursorInLine(Doc(Loaded(file), d.y, d.x)) <==>
              PlainFrom(file, ChunkStart(file, d.y), d.x) && (d.y > 0 ==> ChunkStart(file, d.y) < |file|)
  {
    LoadedIsText(file);
    LoadedRoom(file, d.y, d.x);
  }

  /** Behind three characters, opening an empty file leaves the cursor outside the only line. */
  lemma OpenLosesCursor()
    ensures var d := Doc(["abc"], 0, 3);
            IsDoc(d) && Loaded("") == [""] && !CursorInLine(Doc(Loaded(""), d.y, d.x))
  {
    assert Plain("abc");
  }

  // ---------- runs ----------

  /** No key moves the cursor diagonally: the steps that can leave a line are never taken. */
  lemma KeysMoveStraight(d: Doc, k: Key)
    requires IsDoc(d) && Bound(k).Arrow?
    ensures Bound(k).dx == 0 || Bound(k).dy == 0
    ensures IsDoc(Press(d, k))
  {
    MoveStaysInLine(d, Bound(k).dx, Bound(k).dy);
  }

  /** A key keeps the text well formed and the cursor in its line exactly when it is possible. */
  lemma PressKeepsDoc(d: Doc, k: Key)
    requires IsDoc(d) && !FindsNext(k)
    ensures IsDoc(Press(d, k)) <==> Possible(d, k)
  {
    match Bound(k)
    case Type(c) => InsertIsFlatInsert(d, c);
    case Enter => SplitIsFlatNewline(d);
    case Backspace => DeleteFitsExactly(d);
    case Arrow(dx, dy) => MoveStaysInLine(d, dx, dy);
    case Open(file) => OpenKeepsCursor(d, file);
    case _ =>
  }

  /** A run of keys, each possible where it is pressed, from d to e. */
  ghost predicate Run(d: Doc, keys: seq<Key>, e: Doc)
    requires IsDoc(d)
    decreases |keys|
  {
    if keys == [] then e == d
    else Possible(d, keys[0]) && (PressKeepsDoc(d, keys[0]); Run(Press(d, keys[0]), keys[1..], e))
  }

  lemma {:induction false} RunKeepsDoc(d: Doc, keys: seq<Key>, e: Doc)
    requires IsDoc(d) && Run(d, keys, e)
    ensures IsDoc(e)
    decreases |keys|
  {
    if keys != [] {
      PressKeepsDoc(d, keys[0]);
      RunKeepsDoc(Press(d, keys[0]), keys[1..], e);
    }
  }
}

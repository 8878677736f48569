/** Reading a text file line by line into buffers of 128 characters, and what that does to a saved text. */
module TextFile {
  import opened CString
  import opened FlatText

  /** The number of characters `fgets` takes: up to a newline, the end of the file or the buffer's room. */
  function Taken(file: string, room: nat): (n: nat)
    ensures n <= |file| && n <= room
    ensures file != "" && room > 0 ==> n > 0
  {
    if file == "" || room == 0 then 0
    else if file[0] == '\n' then 1
    else 1 + Taken(file[1..], room - 1)
  }

  /** What `editor_load_file` keeps of the characters of one `fgets`. */
  function LineOf(chunk: string): string {
    var t := UpToNul(chunk);
    if t != "" && t[|t| - 1] == '\n' then t[..|t| - 1] else t
  }

  /** The lines of a file, at most `max` of them. */
  function Lines(file: string, max: nat): seq<string>
    decreases max
  {
    if max == 0 || file == "" then []
    else
      var n := Taken(file, MAX_LINE_LEN - 1);
      [LineOf(file[..n])] + Lines(file[n..], max - 1)
  }

  /** The text the editor holds after loading: an empty file gives one empty line. */
  function Loaded(file: string): seq<string> {
    var lines := Lines(file, MAX_LINES);
    if lines == [] then [""] else lines
  }

  /** A newline can only be the last character taken. */
  lemma {:induction false} OnlyLastNewline(file: string, room: nat)
    ensures forall i :: 0 <= i < Taken(file, room) - 1 ==> file[i] != '\n'
    decreases room
  {
    if file != "" && room > 0 && file[0] != '\n' {
      OnlyLastNewline(file[1..], room - 1);
      assert forall i :: 0 < i < |file| ==> file[i] == file[1..][i-1];
    }
  }

  lemma {:induction false} LinesPlain(file: string, max: nat)
    ensures |Lines(file, max)| <= max
    ensures forall i :: 0 <= i < |Lines(file, max)| ==> Plain(Lines(file, max)[i])
    decreases max
  {
    if max > 0 && file != "" {
      var n := Taken(file, MAX_LINE_LEN - 1);
      OnlyLastNewline(file, MAX_LINE_LEN - 1);
      assert Plain(LineOf(file[..n]));
      LinesPlain(file[n..], max - 1);
    }
  }

  // ---------- where a line of the file starts ----------

  /** Where read number y starts, or the end of the file if there are fewer. */
  function ChunkStart(file: string, y: nat): (p: nat)
    ensures p <= |file|
    decreases y
  {
    if y == 0 then 0
    else
      var n := Taken(file, MAX_LINE_LEN - 1);
      n + ChunkStart(file[n..], y - 1)
  }

  /** The next read starts where this one ends. */
  lemma {:induction false} StartNext(file: string, y: nat)
    ensures var p := ChunkStart(file, y);
            ChunkStart(file, y + 1) == p + Taken(file[p..], MAX_LINE_LEN - 1)
    decreases y
  {
    hide Taken, ChunkStart;
    StartStep(file, y);
    if y == 0 {
      assert file[0..] == file;
      StartStep(file[Taken(file, MAX_LINE_LEN - 1)..], 0);
    } else {
      var n := Taken(file, MAX_LINE_LEN - 1);
      StartStep(file, y - 1);
      StartNext(file[n..], y - 1);
      assert file[n..][ChunkStart(file[n..], y - 1)..] == file[ChunkStart(file, y)..];
    }
  }

  lemma StartStep(file: string, y: nat)
    ensures var n := Taken(file, MAX_LINE_LEN - 1);
            ChunkStart(file, 0) == 0 && ChunkStart(file, y + 1) == n + ChunkStart(file[n..], y)
  {
    hide Taken;
  }

  /** The x characters from p on are in the file and fit in a line: no newline and no NUL is among them. */
  predicate PlainFrom(file: string, p: nat, x: int) {
    x < MAX_LINE_LEN && p + x <= |file| && forall i :: p <= i < p + x ==> file[i] != '\n' && file[i] != NUL
  }

  /** The bytes of the file leave room for a cursor in column x of line y. */
  predicate RoomFor(file: string, y: nat, x: int) {
    PlainFrom(file, ChunkStart(file, y), x) && (y > 0 ==> ChunkStart(file, y) < |file|)
  }

  predicate AllPlain(file: string, x: nat) {
    x <= |file| && forall i :: 0 <= i < x ==> file[i] != '\n' && file[i] != NUL
  }

  /** What one read gives. */
  function FirstRead(file: string, room: nat): string { LineOf(file[..Taken(file, room)]) }

  /** One read gives a line of at least x characters exactly when the first x characters are plain. */
  lemma {:induction false} PrefixRead(file: string, room: nat, x: nat)
    ensures x <= |FirstRead(file, room)| <==> x <= room && AllPlain(file, x)
    decreases room
  {
    hide FirstRead, AllPlain;
    if file == "" || room == 0 || file[0] == '\n' || file[0] == NUL {
      NothingRead(file, room);
      NonePlain(file, x);
    } else if x > 0 {
      PrefixRead(file[1..], room - 1, x - 1);
      ReadCons(file, room);
      PlainCons(file, x);
    } else {
      NonePlain(file, x);
    }
  }

  lemma NothingRead(file: string, room: nat)
    requires file == "" || room == 0 || file[0] == '\n' || file[0] == NUL
    ensures FirstRead(file, room) == ""
  {}

  lemma NonePlain(file: string, x: nat)
    ensures AllPlain(file, 0)
    ensures file == "" || file[0] == '\n' || file[0] == NUL ==> (AllPlain(file, x) <==> x == 0)
  {}

  lemma PlainCons(file: string, x: nat)
    requires file != "" && file[0] != '\n' && file[0] != NUL && x > 0
    ensures AllPlain(file, x) <==> AllPlain(file[1..], x - 1)
  {
    assert forall i :: 0 < i < |file| ==> file[i] == file[1..][i-1];
  }

  lemma ReadCons(file: string, room: nat)
    requires file != "" && room > 0 && file[0] != '\n' && file[0] != NUL
    ensures FirstRead(file, room) == [file[0]] + FirstRead(file[1..], room - 1)
  {
    var n := Taken(file, room);
    assert file[..n][1..] == file[1..][..n-1];
    LineOfCons(file[..n]);
  }

  lemma LineOfCons(s: string)
    requires s != "" && s[0] != NUL && s[0] != '\n'
    ensures LineOf(s) == [s[0]] + LineOf(s[1..])
  {
    var t := UpToNul(s[1..]);
    assert UpToNul(s) == [s[0]] + t;
    if t != "" { assert ([s[0]] + t)[..|t|] == [s[0]] + t[..|t| - 1]; }
  }

  /** Line y exists exactly when its read starts before the end of the file, and is what that read gives. */
  lemma {:induction false} LineAt(file: string, max: nat, y: nat)
    requires y < max
    ensures var p := ChunkStart(file, y);
            && (y < |Lines(file, max)| <==> p < |file|)
            && (p < |file| ==> Lines(file, max)[y] == FirstRead(file[p..], MAX_LINE_LEN - 1))
    decreases max
  {
    hide FirstRead, Taken, LineOf;
    if file != "" {
      LinesStep(file, max);
      if y == 0 {
        assert file[0..] == file;
      } else {
        var n := Taken(file, MAX_LINE_LEN - 1);
        LineAt(file[n..], max - 1, y - 1);
        assert file[n..][ChunkStart(file[n..], y - 1)..] == file[ChunkStart(file, y)..];
      }
    }
  }

  /** One step of `Lines`. */
  lemma LinesStep(rest: string, max: nat)
    requires rest != "" && max > 0
    ensures var n := Taken(rest, MAX_LINE_LEN - 1);
            Lines(rest, max) == [LineOf(rest[..n])] + Lines(rest[n..], max - 1)
            && LineOf(rest[..n]) == FirstRead(rest, MAX_LINE_LEN - 1)
  {}

  /** The loaded text has line y, with at least x characters, exactly when the file's bytes leave room. */
  lemma LoadedRoom(file: string, y: nat, x: nat)
    requires y < MAX_LINES
    ensures y < |Loaded(file)| && x <= |Loaded(file)[y]| <==> RoomFor(file, y, x)
  {
    hide Lines, FirstRead, Taken;
    var p := ChunkStart(file, y);
    LineAt(file, MAX_LINES, y);
    PrefixRead(file[p..], MAX_LINE_LEN - 1, x);
    PlainShift(file, p, x);
  }

  /** Its characters are those of the file from where its read starts. */
  lemma LoadedChars(file: string, y: nat, i: nat)
    requires y < |Loaded(file)| && i < |Loaded(file)[y]|
    ensures var p := ChunkStart(file, y);
            p + i < |file| && Loaded(file)[y][i] == file[p + i]
  {
    hide Taken, FirstRead, ChunkStart;
    LinesPlain(file, MAX_LINES);
    LineAt(file, MAX_LINES, y);
    ReadChar(file[ChunkStart(file, y)..], MAX_LINE_LEN - 1, i);
  }

  lemma ReadChar(file: string, room: nat, i: nat)
    requires i < |FirstRead(file, room)|
    ensures i < |file| && FirstRead(file, room)[i] == file[i]
  {
    var chunk := file[..Taken(file, room)];
    assert UpToNul(chunk)[i] == chunk[i];
  }

  lemma PlainShift(file: string, p: nat, x: nat)
    requires p <= |file|
    ensures x < MAX_LINE_LEN && AllPlain(file[p..], x) <==> PlainFrom(file, p, x)
  {
    assert forall i :: p <= i < |file| ==> file[p..][i - p] == file[i];
  }

  /** Whatever the file holds, the editor ends up with a text. */
  lemma LoadedIsText(file: string)
    ensures IsText(Loaded(file))
  {
    LinesPlain(file, MAX_LINES);
  }

  // ---------- loading what was saved ----------

  /** What loading makes of the lines: `fgets` has no room for the newline of a line of 127 characters,
      and reads it as another, empty, line. */
  function Doubled(text: seq<string>): (r: seq<string>)
    ensures |r| >= |text|
  {
    if text == [] then []
    else (if |text[0]| >= MAX_LINE_LEN - 1 then [text[0], ""] else [text[0]]) + Doubled(text[1..])
  }

  function Take(s: seq<string>, n: nat): seq<string> {
    if |s| <= n then s else s[..n]
  }

  lemma {:induction false} TakenOfLine(t: string, rest: string, room: nat)
    requires '\n' !in t
    ensures Taken(t + "\n" + rest, room) == if |t| < room then |t| + 1 else room
    decreases room
  {
    var file := t + "\n" + rest;
    if t != "" && room > 0 {
      assert file[1..] == t[1..] + "\n" + rest;
      TakenOfLine(t[1..], rest, room - 1);
    }
  }

  lemma {:induction false} NoNul(s: string)
    requires NUL !in s
    ensures UpToNul(s) == s
  {
    if s != "" { NoNul(s[1..]); }
  }

  /** A line with room for its newline is read whole. */
  lemma ShortLine(t: string, rest: string, max: nat)
    requires Plain(t) && |t| < MAX_LINE_LEN - 1 && max > 0
    ensures Lines(t + "\n" + rest, max) == [t] + Lines(rest, max - 1)
  {
    var file := t + "\n" + rest;
    TakenOfLine(t, rest, MAX_LINE_LEN - 1);
    assert file[..|t| + 1] == t + "\n" && file[|t| + 1..] == rest;
    NoNul(t + "\n");
  }

  /** A line of 127 characters is read first, then its newline. */
  lemma FullLine(t: string, rest: string, max: nat)
    requires Plain(t) && |t| == MAX_LINE_LEN - 1 && max > 0
    ensures Lines(t + "\n" + rest, max) == [t] + if max > 1 then [""] + Lines(rest, max - 2) else []
  {
    var file := t + "\n" + rest;
    TakenOfLine(t, rest, MAX_LINE_LEN - 1);
    assert file[..|t|] == t && file[|t|..] == "" + "\n" + rest;
    NoNul(t);
    if max > 1 { ShortLine("", rest, max - 1); }
  }

  lemma TakeCons(a: string, s: seq<string>, n: nat)
    requires n > 0
    ensures Take([a] + s, n) == [a] + Take(s, n - 1)
  {}

  ghost predicate LoadsDoubled(text: seq<string>, max: int) {
    max < 0 || Lines(Saved(text), max) == Take(Doubled(text), max)
  }

  lemma TakeNone(s: seq<string>)
    ensures Take(s, 0) == []
  {}

  lemma FirstLine(t: string, rest: seq<string>)
    ensures Saved([t] + rest) == t + "\n" + Saved(rest)
    ensures Doubled([t] + rest) == [t] + ((if |t| >= MAX_LINE_LEN - 1 then [""] else []) + Doubled(rest))
  {
    assert ([t] + rest)[1..] == rest;
  }

  lemma LoadsShort(t: string, rest: seq<string>, max: nat)
    requires Plain(t) && |t| < MAX_LINE_LEN - 1 && max > 0 && LoadsDoubled(rest, max - 1)
    ensures LoadsDoubled([t] + rest, max)
  {
    hide Lines, Saved, Doubled, Take;
    ShortLine(t, Saved(rest), max);
    TakeCons(t, Doubled(rest), max);
    FirstLine(t, rest);
    var none: seq<string> := [];
    assert none + Doubled(rest) == Doubled(rest);
  }

  lemma LoadsFull(t: string, rest: seq<string>, max: nat)
    requires Plain(t) && |t| == MAX_LINE_LEN - 1 && max > 0 && LoadsDoubled(rest, max - 2)
    ensures LoadsDoubled([t] + rest, max)
  {
    hide Lines, Saved, Doubled, Take;
    FullLine(t, Saved(rest), max);
    TakeCons(t, [""] + Doubled(rest), max);
    if max > 1 { TakeCons("", Doubled(rest), max - 1); } else { TakeNone([""] + Doubled(rest)); }
    FirstLine(t, rest);
  }

  /** Loading a saved text doubles its full lines, and drops what no longer fits. */
  lemma {:induction false} LoadSaved(text: seq<string>, max: int)
    requires forall i :: 0 <= i < |text| ==> Plain(text[i])
    ensures LoadsDoubled(text, max)
    decreases |text|
  {
    if text != [] && max > 0 {
      var t, rest := text[0], text[1..];
      assert Plain(t) && text == [t] + rest;
      if |t| < MAX_LINE_LEN - 1 {
        LoadSaved(rest, max - 1);
        LoadsShort(t, rest, max);
      } else {
        LoadSaved(rest, max - 2);
        LoadsFull(t, rest, max);
      }
    }
  }

  /** A text comes back unchanged exactly when a full line, if there is one, belongs to a text with all
      256 lines and only empty lines follow it. In particular when every line has at most 126 characters. */
  predicate Survives(text: seq<string>, max: nat) {
    forall i :: 0 <= i < |text| && |text[i]| >= MAX_LINE_LEN - 1 ==> |text| == max && EmptyFrom(text, i + 1)
  }

  predicate EmptyFrom(text: seq<string>, from: nat) {
    forall j :: from <= j < |text| ==> text[j] == ""
  }

  lemma {:induction false} DoubledEmpty(text: seq<string>)
    requires EmptyFrom(text, 0)
    ensures Doubled(text) == text
  {
    if text != [] { DoubledEmpty(text[1..]); }
  }

  lemma {:induction false} DoubledPrefix(text: seq<string>, k: nat)
    requires k <= |text| && forall j :: 0 <= j < k ==> text[j] == ""
    ensures |Doubled(text)| >= k && Doubled(text)[..k] == text[..k]
  {
    if k > 0 { DoubledPrefix(text[1..], k - 1); }
  }

  /** A list that equals itself moved one place, after an empty line, is empty lines throughout. */
  lemma {:induction false} MovedOnto(text: seq<string>, k: nat)
    requires k <= |text| && Take([""] + Doubled(text), |text|) == text
    ensures forall j :: 0 <= j < k ==> text[j] == ""
  {
    if k > 0 {
      MovedOnto(text, k - 1);
      DoubledPrefix(text, k - 1);
      assert text[k-1] == ([""] + Doubled(text))[k-1];
      if k > 1 { assert text[k-1] == Doubled(text)[..k-1][k-2]; }
    }
  }

  lemma {:induction false} SurvivesExactly(text: seq<string>, max: nat)
    requires |text| <= max
    ensures Take(Doubled(text), max) == text <==> Survives(text, max)
  {
    if text != [] {
      var rest := text[1..];
      if |text[0]| < MAX_LINE_LEN - 1 {
        SurvivesExactly(rest, max - 1);
        SurvivesTail(text, max);
        assert Take(Doubled(text), max) == [text[0]] + Take(Doubled(rest), max - 1);
        assert text == [text[0]] + rest;
      } else {
        FullFirst(text, max);
      }
    }
  }

  lemma SurvivesTail(text: seq<string>, max: nat)
    requires 0 < |text| <= max && |text[0]| < MAX_LINE_LEN - 1
    ensures Survives(text, max) <==> Survives(text[1..], max - 1)
  {
    var rest := text[1..];
    assert forall i :: 0 <= i < |rest| ==> rest[i] == text[i+1];
    if Survives(text, max) {
      forall i | 0 <= i < |rest| && |rest[i]| >= MAX_LINE_LEN - 1
        ensures |rest| == max - 1 && EmptyFrom(rest, i + 1)
      {
        assert EmptyFrom(text, i + 2);
      }
    }
    if Survives(rest, max - 1) {
      forall i | 0 <= i < |text| && |text[i]| >= MAX_LINE_LEN - 1
        ensures |text| == max && EmptyFrom(text, i + 1)
      {
        assert rest[i-1] == text[i] && EmptyFrom(rest, i);
      }
    }
  }

  lemma FullFirst(text: seq<string>, max: nat)
    requires 0 < |text| <= max && |text[0]| >= MAX_LINE_LEN - 1
    ensures Take(Doubled(text), max) == text <==> Survives(text, max)
  {
    var rest := text[1..];
    var moved := [""] + Doubled(rest);
    assert Doubled(text) == [text[0]] + moved;
    assert text == [text[0]] + rest;
    assert Take(Doubled(text), max) == [text[0]] + Take(moved, max - 1);
    if Take(moved, max - 1) == rest {
      MovedOnto(rest, |rest|);
      assert |text| == max && EmptyFrom(text, 1);
    }
    if Survives(text, max) {
      assert EmptyFrom(text, 1);
      DoubledEmpty(rest);
      assert moved[..max - 1] == rest;
    }
  }

  /** The round trip through a file. */
  lemma RoundTrip(text: seq<string>)
    requires IsText(text)
    ensures Loaded(Saved(text)) == text <==> Survives(text, MAX_LINES)
    ensures (forall i :: 0 <= i < |text| ==> |text[i]| <= MAX_LINE_LEN - 2) ==> Loaded(Saved(text)) == text
  {
    LoadSaved(text, MAX_LINES);
    SurvivesExactly(text, MAX_LINES);
  }

  /** A single line of 127 characters comes back with an empty line after it. */
  lemma FullLineGrows(t: string)
    requires Plain(t) && |t| == 127
    ensures IsText([t]) && Loaded(Saved([t])) == [t, ""]
  {
    LoadSaved([t], MAX_LINES);
    assert Doubled([t]) == [t, ""] + Doubled([]);
  }
}

# Models of the Kenux boot loaders, applications and list headers

This project models the parts of Kenux whose correctness rests on invariants that no single function
shows, and proves them:

* **Booting.** `bootloader/kernel.c` builds 4-level page tables and copies a higher-half ELF image;
  `bootloader/bootx64.c` checks an ELF64 executable in one pass and places it in a second. Physical
  memory is a byte array. Page-table entries and ELF fields are little-endian words in it, `&`, `|`, `~`
  and `>>` are defined bit by bit, and 64-bit sums wrap. Address translation follows the Intel SDM
  Vol. 3A, section 4.5, and the ELF layout follows the System V gABI, chapters 4 and 5: files written field by
  field are read back. The requests to the firmware are logged.
* **Games.** Minesweeper, 2048, Snake and Tetris change their boards and counters in place. Each class
  has an invariant `Valid` that holds in every state its methods can reach.
* **Lists.** The hash list and the circular list rewire pointers of heap nodes and are proved against
  sequence operations.
* **Notepad.** The editor shifts characters and rows of a fixed array of NUL-terminated lines. The methods
  are proved against what each key does to the rows, character for character and wherever the cursor is;
  that against operations on lines, with the cursor in its line; those against a flat string with one
  offset; and loading and saving against each other.
* **Arithmetic.** Zeller's congruence against a calendar that counts days, and the circle rasteriser
  against the exact set of pixels it paints.

A class method is proved against a function of the state before it. What that function means is said by
lemmas about it. Where the code's promise fails for some inputs, the exact condition is proved, with an
input that fails:

| promise | holds exactly when | condition | failing input |
|---|---|---|---|
| a printable key types itself on a line with room | the key is none of o, p, q, s, g and their capitals | `NotepadKeys.TypesItself` | `NotepadKeys.LetterIsLost` |
| opening a file leaves the cursor in its line | the file goes on where that line starts, and has enough characters there before the next newline or NUL | `NotepadKeys.OpenKeepsCursor` | `NotepadKeys.OpenLosesCursor` |
| a typed character changes nothing behind its row | the cursor is in one of the row's 128 columns | `NotepadRows.TypingStaysInRow` | `NotepadRows.LettersLeaveRow` |
| arrow keys bring the cursor back to a line | it is at most one row below the text | `NotepadRows.ArrowsReturn` | every row further down |
| a saved text loads unchanged | no line has 127 characters, but for the last lines of a full text | `TextFile.RoundTrip` | `TextFile.FullLineGrows` |
| deleting a line break keeps every line in its row | the joined line has at most 127 characters | `FlatText.DeleteFitsExactly` | `FlatText.DeleteOverflows` |
| a cursor step stays in its line | not to the left into a line that ends before | `FlatText.MoveStaysInLine` | `FlatText.MoveLeavesLine`, a diagonal step, which no key takes (`NotepadKeys.KeysMoveStraight`) |
| the snake's search for a free cell ends | the body is shorter than 684 | `Snake.SnakeGame.SpawnFood` | `SnakeRun.BoardFills`, a whole game |
| the circle's sums fit in 32 bits | the radius is at most 2^30 | `Circle.FitsExactly` | `Circle.FirstStepOverflows` |
| a byte of the kernel is mapped | it lies in the first 4 MiB of the image | `KernelLoad.SegmentByteVisible` | every byte beyond |
| a byte of the frame buffer can be reached at its address | it lies below 8 GiB | `KernelLoad.FramebufferReachable` | every byte beyond |
| an arrow key of 2048 slides the tiles to its side | never: left and up are exchanged, and right and down | `Moves2048.KeysMoveElsewhere` | `Moves2048.LeftKeyMovesUp` |
| the first reveal opens its cell, which is safe | it is not pressed on a flag | `Minefield.FirstOpened` | `Minesweeper.FlagThenMine` |
| a chord that hits a mine does not win | the count ends below 216, or no safe neighbour is opened after the mine | `Minesweeper.Game.ChordReveal` | `ChordWitness.LostAndWon` |

The code and its intent differ in these places, and the models follow the code; so they do where a kernel
file shorter than an ELF header is reported as loaded, with entry point 0 (`bootloader/kernel.c:261-265`).

`dafny verify dfyconfig.toml` checks the whole project.

| files | contents |
|---|---|
| `Bits`, `Memory`, `PageWalk`, `Elf` | words and masks, byte memory and the firmware allocator with its log, address translation, ELF fields |
| `KernelTables`, `KernelPaging`, `KernelLoad` | what the finished tables map, building them in memory, loading the image |
| `Elf64Exec` | the two-pass loader for fixed-address executables |
| `ElfLayout` | ELF files written field by field, what is read back from them, and which are accepted |
| `Minefield`, `Minesweeper`, `ChordWitness`, `Sets` | floods and counts, the game in place, a position lost and won at once, sizes of finite sets |
| `Game2048`, `Score2048`, `Slide2048`, `Moves2048`, `Play2048` | sliding as filter and merge, the score as a potential, the loop's steps, moves by side and key, the game in place |
| `Snake`, `SnakeRun`; `TetrisBoard`, `Tetris` | the two games, and whole games of Snake |
| `HashList`, `CircularList` | the intrusive lists |
| `CString`, `FlatText`, `TextFile`, `NotepadKeys`, `NotepadRows`, `Notepad` | C strings in rows, lines and flat text, file lines, keys on lines, keys on rows, the editor in place |
| `Calendar`, `Circle` | day of the week, circle rasteriser |

## Model

| member | source | states |
|---|---|---|
| KernelTables.WalkExact | bootloader/kernel.c:77-117 | for every 64-bit address, the processor's walk of the finished tables yields the address itself below 8 GiB, kernel base plus offset for the mapped pages at the high base, both writable, and a fault everywhere else |
| KernelTables.EntryValues | bootloader/kernel.c:77-117 | or-ing the present, writable and page-size flags into an aligned address adds them and disturbs no address bit |
| KernelPaging.Paging.AllocPageTable | bootloader/kernel.c:45-57 | asks for one page below 4 GiB; a granted table is a zeroed page that shares no byte with anything handed out before, and it fails only when the firmware refuses |
| KernelPaging.Paging.FillUpper | bootloader/kernel.c:77-83 | the root and directory entries are exactly those of the finished tables, and no older region changes |
| KernelPaging.Paging.FillLow | bootloader/kernel.c:85-88 | after the nested loops the eight low directories hold all 4096 identity entries and nothing else has changed |
| KernelPaging.Paging.MapFramebuffer | bootloader/kernel.c:90-104 | for any frame buffer, also one whose end wraps around, the loop visits exactly its 2 MiB pages below 8 GiB, and stores only values the entries already hold |
| KernelPaging.Paging.FillHigh | bootloader/kernel.c:106-117 | the page entries written are those of the first min(pages of the image, 1024) pages of the image, the rest stay zero |
| KernelPaging.FramebufferEntry | bootloader/kernel.c:93-98 | the entry computed for a frame buffer page from shifts and masks is the one the identity map stored at that place |
| KernelPaging.Paging.SetupKernelPageTables | bootloader/kernel.c:59-120 | pages below 4 GiB are asked for one at a time, fourteen unless one is refused; then memory holds exactly the fourteen tables that `WalkExact` speaks about, and nothing handed out earlier is touched |
| KernelLoad.SizeImage | bootloader/kernel.c:276-291 | refuses exactly the files with a loadable segment below the high base; otherwise returns the highest segment end |
| KernelLoad.CopyImage | bootloader/kernel.c:304-312 | memory at the base holds, for every offset, what the last segment covering it puts there, and no byte outside the image's span changes |
| KernelLoad.LoadedByLast | bootloader/kernel.c:304-312 | the last segment that covers a byte decides it |
| KernelLoad.LoadedInDisjoint | bootloader/kernel.c:304-312 | with disjoint segments no segment's image is damaged by a later one |
| KernelLoad.AddressSpaceExact | bootloader/kernel.c:106-117 | the tables realise exactly the pages of the image, rounded up and capped at 4 MiB, over the identity map |
| KernelLoad.LoadKernel | bootloader/kernel.c:261-327 | which files are refused; for the others the firmware is asked for exactly the pages of the image below 1 GiB and then for the tables, a firmware error means that the last of these requests was refused, and success leaves the image visible through the tables with the file's entry point |
| KernelLoad.SegmentByteVisible | bootloader/kernel.c:276-316 | end to end, for overlapping segments too: byte k of a segment can be read at its virtual address through the finished tables exactly when it lies in the first 4 MiB of the image, otherwise the address faults; where no later segment covers it, it is byte offset+k of the file, or zero beyond the file contents |
| KernelLoad.FramebufferReachable | bootloader/kernel.c:85-104 | after loading, an address below 8 GiB, so also one of the frame buffer, reaches itself; no other address does |
| Elf.ReadSegment | bootloader/kernel.h:6-37 | the header found by pointer arithmetic is the i-th of the file's program headers |
| ElfLayout.HeaderReadBack | bootloader/kernel.h:6-26 | from a header written field by field, in the order and with the widths of its declaration, the entry point, the place and number of program headers, and the other fields that are checked are read back |
| ElfLayout.ProgramReadBack | bootloader/kernel.h:28-37 | so are the type, the offset, both addresses and both sizes of a program header; it is loadable exactly when its type is 1 |
| ElfLayout.SegmentsReadBack | bootloader/kernel.c:276-279 | the segments of a written file are its program headers, in their order |
| ElfLayout.MagicAccepted | bootloader/kernel.c:267-274 | the magic is accepted exactly when the header starts with 0x7f, E, L and F |
| ElfLayout.KernelSize | bootloader/kernel.c:278-291 | the size found for the image of a written file is the highest end of a program header of type 1, counted from the high base |
| ElfLayout.KernelAccepted | bootloader/kernel.c:276-286 | a written file is taken for a high-half kernel exactly when every program header of type 1 has an address from 0xffffffff80000000 on |
| Bits.OrFlags | bootloader/kernel.c:77-88 | flags below an address's alignment can be or-ed in without changing the address |
| Bits.AndHighMask | bootloader/bootx64.c:530-532 | masking with a complemented low mask rounds down to a multiple of the power of two |
| Bits.PowerOfTwoTest | bootloader/bootx64.c:535-537 | the test with `align - 1` accepts exactly the powers of two |
| Elf64Exec.AlignDownExact | bootloader/bootx64.c:530-532 | the result is the largest multiple of the alignment that is not above the value |
| Elf64Exec.AlignUpExact | bootloader/bootx64.c:534-541 | succeeds exactly when the alignment is a power of two and some multiple at or above the value fits in 64 bits, and then gives the least one, although the sum inside may wrap |
| Elf64Exec.PageBounds | bootloader/bootx64.c:575-583 | accepts a segment exactly when its page-rounded range is non-empty and ends at or below 4 GiB, without a wrapped sum passing the test |
| Elf64Exec.CheckSegment | bootloader/bootx64.c:562-583 | accepts a segment exactly when its bytes lie in the file, fit its memory size, sit at equal non-zero addresses and do not wrap |
| Elf64Exec.CheckHeader | bootloader/bootx64.c:549-560 | accepts exactly the 64-bit little-endian x86-64 executables whose header table lies in the file |
| Elf64Exec.Validate | bootloader/bootx64.c:549-590 | the first pass accepts exactly the loadable files, entry point inside a segment included, and returns the smallest page range around the segments |
| Elf64Exec.SegmentInSpan | bootloader/bootx64.c:608-617 | every write of the second pass for an accepted segment stays inside the range the first pass computed |
| Elf64Exec.Place | bootloader/bootx64.c:608-617 | every byte of the range ends up as the last covering segment decides, zero where none does, and nothing outside the range changes |
| Elf64Exec.LoadElf64Exec | bootloader/bootx64.c:543-623 | a file that is not loadable gives 0 and no request; for a loadable one the firmware is asked once, for exactly the pages [low, high) around the segments, and the result is the entry point, which is not 0, exactly when it grants them; then the range is as `Place` says and disjoint from earlier allocations, otherwise memory is unchanged |
| ElfLayout.HeaderAccepted | bootloader/bootx64.c:549-560 | a written file header is accepted exactly when it is that of an executable for 64-bit little-endian x86-64 with a table of 56-byte program headers in the file |
| ElfLayout.FileAccepted | bootloader/bootx64.c:562-595 | a written file is loadable exactly when each program header of type 1 has its bytes in the file, fits its memory size, has equal non-zero addresses and whole pages below 4 GiB, and the entry point lies in one of them |
| Elf64Exec.SegmentLoaded | bootloader/bootx64.c:608-617 | each byte of each segment that no later segment covers is in place, and zeros follow the file contents |
| Elf64Exec.GapZeroed | bootloader/bootx64.c:606-606 | between segments the range holds zeros |
| Memory.MemSet | bootloader/bootx64.c:43-46 | exactly the given bytes change, to the given value |
| Memory.MemCpy | bootloader/bootx64.c:48-52 | exactly the destination bytes change, to the source's |
| Minefield.FloodUnique | apps/minesweeper.c:77-108 | a flood is determined by the board and its first cell |
| Minefield.FloodStep | apps/minesweeper.c:92-101 | one recursive call from a zero cell keeps the revealed set inside every closed set around the start |
| Minefield.FloodDone | apps/minesweeper.c:92-101 | when all neighbours have been visited the revealed set is the least closed set containing the start |
| Minefield.FloodSafe | apps/minesweeper.c:92-101 | with correct counts a flood that starts on a safe cell never contains a mine |
| Minesweeper.Game.RevealCell | apps/minesweeper.c:77-108 | terminates; reveals precisely the least set closed under hidden neighbours of zero cells, or, on a mine, that cell and every mine; counts the cells and raises the flags only when every safe cell is revealed |
| Minesweeper.Game.PlaceMines | apps/minesweeper.c:41-75 | forty mines, none at or beside the first click, and every safe cell shows the number of mines around it |
| Minefield.LegalCellExists | apps/minesweeper.c:44-54 | while mines are missing there is a legal cell for the next one |
| Minesweeper.Game.RevealKey | apps/minesweeper.c:257-265 | the first click places forty mines away from it, never hits one, and opens its cell unless that is flagged; a reveal that hits no mine reveals exactly the flood of the cell and keeps the whole bookkeeping right, and one that hits a mine counts one cell, shows every mine and loses the game |
| Minefield.FirstOpened | apps/minesweeper.c:41-75 | the first reveal opens its cell, which is safe, exactly when the cell is not flagged; on a flag nothing opens, and with fewer than forty flags a mine is left that can be opened next |
| Minesweeper.FlagThenMine | apps/minesweeper.c:257-269 | a run that flags a cell of a new game, reveals it, which places the mines and opens nothing, and loses on the first cell it opens |
| Minefield.ChordNext | apps/minesweeper.c:136-148 | one more neighbour joins the revealed set, which stays inside every closed set around the neighbours: with its flood when it is safe, and with every mine when it is one |
| Minefield.FloodConsistent | apps/minesweeper.c:77-108 | after a flood the counters equal the numbers of revealed and flagged cells, and the game is won exactly when every safe cell is revealed |
| Minefield.CountDecides | apps/minesweeper.c:103-107 | reaching the count of safe cells means that every safe cell is revealed, and conversely |
| Minesweeper.Game.ToggleFlag | apps/minesweeper.c:110-118 | changes one cell, keeps the flag count equal to the number of flagged cells, and never touches a revealed cell |
| Minesweeper.Game.ChordReveal | apps/minesweeper.c:120-149 | when the flags around a revealed cell match its count, the cells revealed are exactly the least set that contains its safe hidden neighbours and is closed under hidden neighbours of zero cells, and every mine as well exactly when one is hidden beside it; the count grows by just those cells and the mine that was hit, and ends at 216 at most; the game is then lost, and won too exactly when the count ends at 216 and a safe neighbour is opened after the first mine; without a mine the bookkeeping stays right; when the flags do not match, nothing changes |
| Minefield.WrongFlag | apps/minesweeper.c:123-136 | with a hidden mine beside a cell whose flags match its count, a flag is on a safe cell, which the chord leaves closed |
| Minefield.LaterOpened | apps/minesweeper.c:137-147 | the chord opens more than before the mine exactly when a safe neighbour was still hidden when it was hit |
| ChordWitness.PositionIsConsistent | apps/minesweeper.c:103-147 | a position of a game under way with two safe cells left, one under a wrong flag |
| ChordWitness.LostAndWon | apps/minesweeper.c:103-147 | one chord from that position loses the game and wins it |
| Minesweeper.Game.FlagsAround | apps/minesweeper.c:124-134 | the double loop counts exactly the flagged cells around the position, at borders too |
| Game2048.MergeSnoc | apps/game2048.c:67-93 | what one more tile on the right does to a merged row: it joins the last tile exactly when that one is equal and not itself the result of a merge |
| Game2048.SlideFixed | apps/game2048.c:64-97 | a slide leaves a row alone exactly when its tiles are at the left and no neighbours are equal |
| Game2048.FullTurn | apps/game2048.c:99-109 | four quarter turns are the identity |
| Game2048.MoveChanges | apps/game2048.c:111-125 | a move changes the board exactly when the slide of the turned board does |
| Game2048.CanMoveExact | apps/game2048.c:52-62 | on every board, some direction changes it exactly when it has a tile and an empty cell or two equal neighbours |
| Score2048.WorthOfTile | apps/game2048.c:82-84 | the potential of a tile 2^k is (k - 1) times 2^k |
| Score2048.MergeSums | apps/game2048.c:64-97 | merging keeps the sum of the tiles and raises their potential by exactly the points scored |
| Score2048.MoveSums | apps/game2048.c:111-125 | so does every move, on the whole board |
| Score2048.SpawnSums | apps/game2048.c:34-50 | a new 2 adds no potential, a new 4 adds 4 |
| Score2048.MergeBig | apps/game2048.c:78-89 | merging makes a tile of at least 2048 exactly when there was one or a 2048 is created |
| Score2048.MoveBig | apps/game2048.c:111-125 | so does every move, on the whole board |
| Slide2048.MovedNext | apps/game2048.c:67-93 | the loop's `moved` flag is raised exactly when the row has changed for good |
| Slide2048.CellJoins | apps/game2048.c:78-80 | the test on the left neighbour and its mark finds exactly the tiles that merge |
| Play2048.Game.SlideOneRow | apps/game2048.c:66-94 | the in-place loop with its marks gives the row without zeros, equal neighbours merged once from the left, padded; points, win flag and `moved` agree with it, and the other rows are untouched |
| Play2048.Game.Slide | apps/game2048.c:64-97 | the board is slid row by row, and the result is true exactly when the board changed |
| Play2048.Game.RotateBoard | apps/game2048.c:99-109 | the two copying loops make a quarter turn clockwise |
| Play2048.Game.Move | apps/game2048.c:111-125 | a move is the slide of the turned board turned back; it reports whether the board changed |
| Play2048.Game.AddTile | apps/game2048.c:34-50 | on the empty cell that was drawn, counted row by row, a 4 appears when the second draw is a multiple of ten, and else a 2; without an empty cell nothing happens |
| Play2048.Game.CanMove | apps/game2048.c:52-62 | true exactly when there is an empty cell or a pair of equal neighbours |
| Play2048.Game.Init | apps/game2048.c:15-32 | two tiles, whose sum says which were fours, on a board that can move, with score and potential in agreement, whatever was there before |
| Play2048.Game.constructor | apps/game2048.c:15-32 | the first game starts in the same way |
| Play2048.Game.Key | apps/game2048.c:249-256 | in every reachable state the score is the potential of the board minus 4 for every 4 that was spawned, one of which is counted exactly when a move changes the board and the draw is a multiple of ten; the game is over exactly when no move changes the board, and won exactly when some tile is at least 2048; a key that moves nothing changes nothing |
| Moves2048.MoveSlides | apps/game2048.c:99-125 | move 0 slides every row to the left, 1 every column down, 2 every row to the right and 3 every column up, and it changes nothing exactly when all of them are slid already |
| Moves2048.OneSlid | apps/game2048.c:99-125 | what a side makes of a board is one board |
| Moves2048.KeysMoveElsewhere | apps/game2048.c:226-238 | no arrow or letter key moves to the side it names |
| Moves2048.KeyCodes | apps/game2048.c:226-238 | which codes move to which side: 75, a and A up, 77, d and D down, 72, w and W left, 80, s and S right |
| Moves2048.LeftKeyMovesUp | apps/game2048.c:227-229 | the left arrow moves a single tile to the top and not to the left |
| Play2048.Game.KeyTo | apps/game2048.c:249-256 | a direction key slides the board to the side of its move, and a tile appears, unless the game is over or nothing moves |
| Play2048.Game.Press | apps/game2048.c:221-256 | every key code: where the arrows and letters really slide, the new game, leaving, and that all others change nothing |
| Slide2048.MoveLeavesRoom | apps/game2048.c:249-252 | a move that changes the board leaves an empty cell for the new tile |
| Snake.Pigeonhole | apps/snake_game.c:57-71 | distinct interior cells number at most 684, and a free one exists exactly while there are fewer |
| Snake.AdjacentIsStep | apps/snake_game.c:121-127 | a piece is beside another exactly when one step in some direction leads to it |
| Snake.StepKeepsBody | apps/snake_game.c:140-148 | a step keeps the pieces distinct, inside the walls and each beside the next, whether the snake eats or not |
| Snake.FreeCells | apps/snake_game.c:57-71 | the cells the search can draw are the interior ones, and one of them is free exactly while the body is shorter than 684 |
| Snake.SnakeGame.SpawnFood | apps/snake_game.c:57-71 | food lands on a free interior cell, and the search can end exactly while the body is shorter than 684 |
| Snake.SnakeGame.constructor | apps/snake_game.c:39-55 | three pieces in a row, heading right, with food on a free cell; no points, level 1 and a wait of 150 |
| Snake.SnakeGame.Shift | apps/snake_game.c:144-148 | the in-place shift puts the new head before the old body; its write to place `length` stays inside the 800 places |
| Snake.SnakeGame.Update | apps/snake_game.c:116-162 | every tick keeps the body invariant, length = 3 + eaten at most 684, score, level and speed; the new head is never the second piece, and the game ends exactly at a wall or at the body; a bite scores ten points a level, every fifth one raises the level and shortens the wait by 10 down to 50; a tick that goes on is one step of the runs of `SnakeRun` |
| Snake.FullBoard | apps/snake_game.c:57-71 | a body of neighbouring, distinct pieces can take every interior cell |
| Snake.SnakeGame.AlmostFull | apps/snake_game.c:116-162 | a game that satisfies the invariant with one free cell, which is in front of the snake and holds the food |
| Snake.LastBite | apps/snake_game.c:116-162 | from that game the next tick fills the board, and its search for a free cell never ends |
| SnakeRun.RunIsGood | apps/snake_game.c:39-162 | in every state of every game, whatever keys are pressed and wherever food is drawn, the body is one, no longer than 684, and the food is on a free cell while there is one |
| SnakeRun.FeastTicks | apps/snake_game.c:136-162 | on the track through all cells every tick eats, and the next food can be drawn in front of the snake |
| SnakeRun.BoardFills | apps/snake_game.c:39-162 | a game from the start, with legal turns and food on free cells only, that reaches the almost full state and then the full board |
| Snake.SnakeGame.HandleInput | apps/snake_game.c:164-182 | which code asks for which direction; the next direction is never opposite to the current one, however many keys are pressed between ticks |
| TetrisBoard.ClearedCounts | apps/tetris.c:143-167 | removing full rows removes ten cells for each and leaves no full row |
| TetrisBoard.FallsBy | apps/tetris.c:143-167 | a row that is not full falls by the number of full rows below it |
| Tetris.ClearingRow | apps/tetris.c:146-166 | examining the same row again after a shift looks at the next row that was not examined yet |
| Tetris.LockedCounts | apps/tetris.c:132-141 | locking a piece fills one cell for each block on the board and completes at most four rows |
| Tetris.ShapesDrawn | apps/tetris.c:36-44 | the blocks of each new piece, drawn in two rows of characters; colour 2 is that of the square |
| Tetris.FourTurns | apps/tetris.c:104-116 | four rotations bring every piece back |
| Tetris.KickedInCoordinates | apps/tetris.c:104-130 | in coordinates: a block at (u, v) from the pivot ends at (v, -u), after the first of the side steps 0, -1, 1, -2 and 2 with which all blocks are between the walls, above the floor and on no filled cell; with none the piece stays, and the square always does |
| Tetris.FitsCells | apps/tetris.c:88-102 | a piece fits exactly when each block is in columns 0 to 9, above row 20, and on no filled cell |
| Tetris.LevelSteps | apps/tetris.c:174-178 | the level is 1 below ten lines, and ten more lines raise it by one, up to 15 |
| Tetris.Game.IsValidPosition | apps/tetris.c:88-102 | true exactly when every block lies between the walls, above the floor and on no filled cell |
| Tetris.Game.RotatePiece | apps/tetris.c:104-130 | the loop and the five tests leave the piece where `KickedInCoordinates` says |
| Tetris.LockedAt | apps/tetris.c:132-141 | a cell takes the piece's colour exactly when one of the blocks is on it, and keeps its value otherwise |
| Tetris.Game.LockPiece | apps/tetris.c:132-141 | exactly the piece's blocks on the board are written, as `LockedAt` says cell by cell |
| Tetris.Game.ShiftDown | apps/tetris.c:155-162 | the shifting loops remove one row and put an empty one on top |
| Tetris.Game.RemoveFullRows | apps/tetris.c:143-167 | the loop ends with exactly the non-full rows in their order below as many empty rows as were full, and counts those |
| Tetris.Game.ClearLines | apps/tetris.c:143-180 | one to four rows score 100, 300, 500 or 800 times the level, and level and drop interval follow from the lines cleared |
| Tetris.Game.SpawnPiece | apps/tetris.c:70-86 | the next piece appears at column 4 of row 0, the game is over exactly when it does not fit, and the one after it is the shape that was drawn, in its colour |
| Tetris.Game.MovePiece | apps/tetris.c:182-191 | moves, refuses or settles the piece; a settled one clears exactly the rows it completes, changes the filled count by its visible blocks minus ten a cleared row, scores by the old level and brings in the next piece, and no row is full between steps |
| Tetris.Game.SoftDrop | apps/tetris.c:325-328 | the key moves the piece down or settles it, and scores one point more in either case |
| Tetris.Game.HardDrop | apps/tetris.c:193-201 | the piece settles at the first place below which it does not fit, having fitted at every place in between |
| HashList.SlotPointsBack | include/kapi_hash.h:55-101 | for every node of a list the pointer its `pprev` refers to points at the node |
| HashList.ListUnique | include/kapi_hash.h:55-101 | the pointers determine the sequence of nodes |
| HashList.AddHead | include/kapi_hash.h:69-79 | the list becomes the node followed by the old list |
| HashList.AddBefore | include/kapi_hash.h:81-90 | the node is inserted before a given one, without the head being known, at the front too |
| HashList.AddBehind | include/kapi_hash.h:92-101 | the node is inserted behind a given one, at the end too |
| HashList.Del | include/kapi_hash.h:55-67 | the node is taken out without the head being known and is marked unlinked; deleting an unlinked node changes nothing |
| HashList.AddThenDel | include/kapi_hash.h:55-90 | adding a node and deleting it restores every pointer of the list |
| CircularList.Init | include/kapi_list.h:40-44 | the head alone is the empty list |
| CircularList.InsertBetween | include/kapi_list.h:46-54 | the link enters the ring between two neighbours |
| CircularList.Add | include/kapi_list.h:56-59 | a new first element |
| CircularList.AddTail | include/kapi_list.h:61-64 | a new last element |
| CircularList.JoinAround | include/kapi_list.h:66-70 | the ring closes around the link between two neighbours |
| CircularList.Del | include/kapi_list.h:72-77 | element k leaves the list, the others keep their order |
| CircularList.IsEmpty | include/kapi_list.h:79-82 | true exactly for the empty list |
| CircularList.ForEachSafe | include/kapi_list.h:35-38 | visits every element of the original list exactly once and in order even when the body deletes any of the elements it visits, and leaves exactly the others |
| FlatText.InsertIsFlatInsert | apps/notepad.c:72-85 | typing inserts the character at the cursor's offset of the newline-joined text, or does nothing on a full line |
| FlatText.DeleteIsFlatRemove | apps/notepad.c:87-110 | deleting removes the character before the cursor's offset, be it a newline, and does nothing at the start |
| FlatText.SplitIsFlatNewline | apps/notepad.c:112-129 | splitting inserts a newline at the cursor's offset, or does nothing at 256 lines |
| FlatText.SplitThenDelete | apps/notepad.c:87-129 | splitting and deleting restores lines and cursor |
| FlatText.DeleteThenRetype | apps/notepad.c:72-129 | typing what was deleted restores lines and cursor |
| FlatText.MoveStaysInLine | apps/notepad.c:131-150 | the cursor leaves its line exactly when it moves left and to a line that ends before the place it arrives at; never for horizontal or vertical steps |
| FlatText.MoveLeavesLine | apps/notepad.c:131-150 | a concrete diagonal step that ends outside its line |
| FlatText.OffsetOrders | apps/notepad.c:72-150 | two cursors never share an offset |
| FlatText.EveryOffset | apps/notepad.c:72-150 | every offset of the flat text is the place of a cursor |
| FlatText.FlatInjective | apps/notepad.c:72-150 | the lines can be read back from the flat text |
| FlatText.DeleteFitsExactly | apps/notepad.c:87-110 | deleting keeps the text well formed exactly when the joined line fits in its row |
| FlatText.DeleteOverflows | apps/notepad.c:98-99 | two lines of 64 characters do not join |
| NotepadKeys.TypesItself | apps/notepad.c:231-359 | a printable key types itself, on a line with room, exactly when it is none of o, p, q, s, g and their capitals |
| NotepadKeys.LowerCaseDoesNothing | apps/notepad.c:231-299 | the lower-case letters of the dialogs leave text and cursor alone |
| NotepadKeys.EditingKeys | apps/notepad.c:305-353 | which codes split, delete, insert four spaces, and go to the ends of the line |
| NotepadKeys.ArrowKeys | apps/notepad.c:285-309 | up and down change the line where there is one, left and right the column, and a line number goes to the start of that line if it exists |
| NotepadKeys.LetterIsLost | apps/notepad.c:273-283 | on an empty text the key s types nothing |
| NotepadKeys.OpenKeepsCursor | apps/notepad.c:30-55 | after opening any file the cursor is in its line exactly when the file goes on where that line is read from, and the characters from there to the cursor's column are in the file and are neither newlines nor NULs |
| TextFile.LineAt | apps/notepad.c:36-45 | line y is there exactly when read number y starts before the end of the file, and is what that read gives |
| TextFile.PrefixRead | apps/notepad.c:36-45 | a read gives at least x characters exactly when x fit in the row and the first x of the file are plain |
| TextFile.LoadedChars | apps/notepad.c:36-45 | character i of line y is the i-th character of the file from where read y starts |
| NotepadKeys.OpenLosesCursor | apps/notepad.c:30-55 | opening an empty file behind three characters leaves the cursor outside the only line |
| NotepadKeys.PressKeepsDoc | apps/notepad.c:225-361 | one key, opening a file included, keeps the text well formed and the cursor in its line exactly when a join fits and the bytes of the file opened leave room for the cursor |
| NotepadKeys.KeysMoveStraight | apps/notepad.c:306-309 | no key moves the cursor diagonally, so none leaves its line by a step |
| NotepadKeys.RunKeepsDoc | apps/notepad.c:225-361 | so does any run of such keys |
| TextFile.LoadedIsText | apps/notepad.c:30-55 | whatever bytes the file holds, NULs and long lines included, loading gives 1 to 256 lines of at most 127 plain characters |
| TextFile.LoadSaved | apps/notepad.c:36-66 | loading a saved text puts an empty line after every line of 127 characters and drops what no longer fits |
| TextFile.RoundTrip | apps/notepad.c:30-70 | a text survives saving and loading exactly when a line of 127 characters occurs only in a text of 256 lines with nothing but empty lines after it; so it does whenever every line has at most 126 characters |
| TextFile.FullLineGrows | apps/notepad.c:30-70 | a single line of 127 characters comes back with an empty line after it |
| CString.StringIs | apps/notepad.c:10-20 | characters without a NUL, and then a NUL, are the string of a row |
| CString.PaddedString | apps/notepad.c:122-122 | the copied tail arrives terminated when it is shorter than n or the row's next character is NUL |
| CString.StrCpy | apps/notepad.c:101-102 | the destination row is exactly the source's string, a NUL and its own old rest; no other row changes |
| CString.StrCat | apps/notepad.c:99-99 | the destination row is both strings, a NUL and its own old rest, when they fit |
| CString.StrNCpy | apps/notepad.c:122-122 | the copy takes the string from any column on, padded with NULs up to n, and leaves the rest of the row |
| Notepad.Editor.constructor | apps/notepad.c:24-28 | one empty line, nothing modified |
| NotepadRows.TypedString | apps/notepad.c:72-85 | typing inserts into the row's string at the cursor, and leaves the string alone behind its end |
| NotepadRows.ErasedString | apps/notepad.c:88-96 | deleting removes the character before the cursor from the row's string, and leaves the string alone behind its end |
| NotepadRows.GotString | apps/notepad.c:37-44 | after a read the row's string is what stands before the first NUL of the chunk, without a newline at its end |
| NotepadRows.TypingStaysInRow | apps/notepad.c:72-85 | in memory, typing on a line with room changes nothing behind the row exactly when the cursor is in one of its 128 columns |
| NotepadRows.TypedIsSeen | apps/notepad.c:72-85 | typing changes the text exactly when the cursor is in its line and the line is not full; elsewhere the character is lost |
| NotepadRows.LettersLeaveRow | apps/notepad.c:30-85 | after opening a file whose first line is empty with the cursor in the last column, the first letter is lost and the second leaves its row |
| NotepadRows.ErasedBelow | apps/notepad.c:97-109 | with the cursor below the text and in column 0, deleting removes the last line of the text |
| NotepadRows.ArrowsReturn | apps/notepad.c:131-150 | some run of arrow keys brings the cursor into a line exactly when it is at most one row below the text |
| NotepadRows.TapStays | apps/notepad.c:225-361 | every key that meets its condition leaves every row terminated and the cursor in the array, wherever the cursor was |
| NotepadRows.TapsStay | apps/notepad.c:225-361 | so does any run of such keys, files opened with the cursor anywhere included |
| NotepadRows.TapRefines | apps/notepad.c:225-361 | with the cursor in its line a key does to the rows what it does to the lines they hold |
| NotepadRows.CanTapExactly | apps/notepad.c:225-361 | then, with the last place of every row untouched, only a join that does not fit leaves the array |
| NotepadRows.OpenRefines | apps/notepad.c:30-55 | wherever the cursor is, the rows hold the lines of a file after it has been opened |
| Notepad.Editor.InsertChar | apps/notepad.c:72-85 | the shifting loop does to the array, with the cursor anywhere in a row, exactly what typing means, every character of every row included |
| Notepad.Editor.DeleteChar | apps/notepad.c:87-110 | the loops remove a character, or join two rows and move the rows below up, with the cursor in the text or below it |
| Notepad.Editor.SplitLine | apps/notepad.c:112-129 | the loops move the rows below down and divide the row at the cursor, which may be behind its string or below the text |
| Notepad.Editor.MoveCursor | apps/notepad.c:131-150 | the rows stay, and the cursor is clamped, wherever it was, as `MoveStaysInLine` describes for one in its line |
| Notepad.Editor.HandleKey | apps/notepad.c:225-361 | for every key code the branches of the switch do to the array what the key is bound to, and stay inside it, wherever the cursor is; with the cursor in its line they act on the lines as specified; the file is written by ^P and P exactly when it has a name and opens, by ^Q and Q exactly when besides the text was modified and the answer is yes, and by no other key; what becomes of the modified mark, the name and the running mark |
| Notepad.TouchesExactly | apps/notepad.c:72-129 | with the cursor in its line the keys that mark the text as modified are just those that change it, opening a file aside |
| Notepad.SaveThenOpen | apps/notepad.c:30-70 | pressing save and then opening what was written gives the same text exactly when it survives the file, with the cursor where it was |
| Notepad.FGets | apps/notepad.c:37-38 | a read takes up to 127 characters, through a newline at most, puts a NUL behind them, and fails only at the end of the file |
| Notepad.Editor.LoadFile | apps/notepad.c:30-55 | from any cursor: the lines are those of the file, the rows below them keep every character, and the cursor does not move |
| Notepad.Editor.SaveFile | apps/notepad.c:57-70 | from any cursor: fails exactly without a name or when the file does not open; otherwise writes every line and a newline |
| Calendar.WeekdayRange | apps/calendar.c:17-29 | the result is 0 to 6 for all integers, also where C's remainder is negative |
| Calendar.NextDayNumber | apps/calendar.c:47-50 | the table, the February rule and the leap-year rule enumerate the days without a gap |
| Calendar.DaysBeforeYearClosed | apps/calendar.c:12-15 | the days before a year are 365 a year and one for every fourth, less every hundredth, plus every four-hundredth |
| Calendar.WeekdayCounts | apps/calendar.c:17-29 | the congruence agrees with counting days from 1 January of year 1 |
| Calendar.NextWeekday | apps/calendar.c:10-50 | the next day is the next weekday, across the ends of months, leap years and centuries |
| Circle.ErrorBound | bootloader/graphics.c:35-59 | every painted offset satisfies r² - 2(x + y) <= x² + y² <= r² - 2y, so it is inside the circle and one diagonal step leads out; in its row it is the last offset inside, or the last but one |
| Circle.MoreThanAPixel | bootloader/graphics.c:35-59 | at radius 4 the offset painted in row 2 is more than one pixel inside the circle, and not the last in its row |
| Circle.OnePerRow | bootloader/graphics.c:35-59 | each row of the octant has at most one painted offset |
| Circle.Step | bootloader/graphics.c:50-57 | one iteration keeps err = x² + y² + 2y - r² and stays within 32 bits |
| Circle.NoRowsLeft | bootloader/graphics.c:40-40 | the loop stops only when no row of the octant is left |
| Circle.NoGaps | bootloader/graphics.c:50-57 | from row to row the offset moves by at most one |
| Circle.MeetsDiagonal | bootloader/graphics.c:40-40 | the octant ends next to its mirror image, so the circle is closed |
| Circle.MirrorPixels | bootloader/graphics.c:41-48 | the pixels painted for an offset are its eight mirror images modulo 2^32 and no others |
| Circle.EightMirrors | bootloader/graphics.c:41-48 | each offset is painted in all eight octants around the centre |
| Circle.FitsExactly | bootloader/graphics.c:50-57 | the loop's sums stay within 32 bits for every radius up to 2^30 and for no larger one |
| Circle.FirstStepOverflows | bootloader/graphics.c:50-57 | for a radius between 2^30 and 2^31 the first step overflows |
| Circle.FieldsApart | bootloader/graphics.c:20-24 | the or-ed colour word holds each colour in its own byte under an opaque top byte |
| Circle.Screen.Colour | bootloader/graphics.c:20-24 | the low byte is blue in pixel format 0 and red in any other, and the third byte the other of the two |
| Circle.Screen.DrawPixel | bootloader/graphics.c:14-25 | colours exactly one pixel of the screen, the word at row times scan line plus column, or none outside it, and never the padding of a scan line |
| Circle.Screen.DrawCircle | bootloader/graphics.c:35-59 | terminates; exactly the visible mirror images of the octant's offsets get the colour, every other word of the frame buffer keeps its value |

## Left out

- UEFI calls other than page allocation, reading files, serial and text output, `jump_to_kernel` and inline assembly.
- The firmware's page allocator is a nondeterministic model: which pages it grants, and whether it does, is its choice.
- KernelLoad.LoadKernel: requires, for a file with the ELF magic, that the header table and the segments lie in the file and that no segment end wraps, because the source does not check it and reads past the file otherwise.
- KernelLoad.SizeImage: requires the same of the header table and the segments.
- KernelLoad.CopyImage: requires the same of the header table and the segments.
- KernelPaging.Paging.SetupKernelPageTables: leaves the page-table pages of a failed set-up allocated, as the source does, and says nothing about their contents.
- Single random draws are parameters; draws that are repeated until they are legal (mines, Snake's food, the first two tiles of 2048) are arbitrary legal choices, that they end is not modelled, and Snake's search on a full board, which never ends, is a result of `Update`.
- Play2048.Game.Press: scores are unbounded integers, the best score is left out, and so is the key that is awaited after a win.
- Tetris.Game.MovePiece: `tetris_run` may call it once more after the game has ended in the same iteration; the invariant is kept, but the piece need no longer fit.
- The key codes and the pause of Tetris.
- Timing, drawing, best scores and menus of all games.
- Notepad.Editor.DeleteChar: requires that the strings of joined rows fit in 127 characters, because the source does not check it.
- CString.StrNCpy: requires that the string ends in its row and within n characters, as the editor's split has it; a copy cut short at n characters is not modelled.
- Searching (the search letter's pattern and the key that finds it again), scrolling, drawing and file names beyond their length limit in the notepad.
- Notepad.Editor.HandleKey: requires that the key stays inside its rows (`NotepadRows.CanTap`): typing in column 128, splitting in row 255, a split whose rest is not terminated in its row or would fill an unterminated one, and joins of more than 127 characters are left out, because C leaves them undefined.
- Notepad.Editor.InsertChar: requires a cursor in one of its row's 128 columns, unless the line is full.
- Notepad.Editor.SplitLine: requires a row below, and a rest that is terminated in its row and in the row below.
- Circle.Screen.DrawCircle: leaves out radii between 2^30 and 2^31, where the first step overflows a signed integer (`Circle.FirstStepOverflows`), which C leaves undefined.
- Circle.Screen.DrawPixel: requires a frame buffer that holds every scan line, as the firmware promises.
- Years and days so large that the sums of the calendar overflow an `int`, and the calendar's printing.
- Hash tables, entry macros and the other list macros of the headers; the prototype-only headers, `spatiotemporal` and the other applications.

# Miroh core, modelled in Dafny

This project models the logic of Miroh, an NES maze-and-blocks game, and of the two
build tools that prepare its assets. Each source file has its own Dafny module:

- **Donut CHR codec** (`tools/donut.c`). Modules: `DonutPlanes`, `DonutCost`,
  `DonutBlock`, `DonutModes`, `DonutPack` and `DonutStream`.
  - The pb8 byte packer and unpacker.
  - The 8x8 bit-plane transpose.
  - The block decoder, with its three fixed cases.
  - The cycle-cost estimate.
  - The block encoder's search over its 24 header modes.
  - The whole-stream compress and decompress loops, which stay within the destination capacity.
  - Proved: pb8 round trip, transpose involution, encoder output decodes back to its 64
    source bytes, stream bounds.
- **NEXXT asset readers** (`tools/nexxt.rb`). Modules: `NexxtSession`, `NexxtMap`, `Ruby`.
  - The session reader: key decomposition, folding `Key=Value` lines into a nested table,
    hex/run-length decoding, and metasprite slicing.
  - The map reader: the dimension footer, the tile grid, and 2x2 metatiles with their
    2-bit attributes.
  - Ruby's `Hash` with insertion order and last-write-wins, `to_i` and `to_h` live in `Ruby`.
  - Ruby exceptions become the error arm of a `Result`.
- **Game logic** (`src/`):
  - the attribute-table packer (`Attributes`), whose layout is proved to agree with the map reader's
    `extract_attribute`;
  - the ring buffer (`CircularBuffer`), the shuffle bag (`Bag`) and the union-find (`UnionFind`);
  - the board occupancy bitset and the maze generator (`Board`, `Walls`, `Maze`);
  - polyomino collision, spawn, kicks, gravity and locking (`PolyominoDefs`, `Polyomino`);
  - 8.8 fixed-point arithmetic (`FixedPoint`) and the decimal tile writers (`Utils`);
  - the player and unicorn state machines with their energy and score rules (`Player`, `Unicorn`);
  - the three animation counters (`Animation`, `BoardAnimation`);
  - the cheat-code matcher (`Cheats`) and the charset translation (`Charset`);
  - stage availability and navigation (`Stages`, `WorldMap`);
  - shared byte types, options and results (`Common`) and the input pads (`Input`, `Directions`).

Objects whose fields the source updates in place are classes, fixed-size buffers are arrays,
and loops stay loops. Each method is proved against a specification function, and lemmas
state what the source promises about that function.

Modelled behaviour worth knowing:
- When rolls are made free (the `roll_disabled` flag), a roll still subtracts `CHARGE_COST`
  from the 8-bit energy (src/unicorn.cpp:124-131). With too little energy that subtraction
  wraps around, far above `MAX_ENERGY` (`Unicorn.FreeRollWrapsEnergy`).
- `NUM_STAGES` is the constant 5, the number of stage labels in `src/world-map.cpp`.
- `CHARGE_COST` and the per-column `OCCUPIED_BITMASK` table are not shown in the source. They are parameters: the charge cost is a byte, and the masks are twelve distinct single bits within 0x0fff.

## Model

| member | source | states |
|---|---|---|
| Animation.Step | src/animation.cpp:21-38 | one unpaused update keeps the position reachable and never lowers `finished`; before the cell's duration only the frame counter rises, and at it the next cell starts, wrapping to the first cell and setting `finished` past the last |
| Animation.Running | src/animation.cpp:21-38 | after the lives of the first k cells plus j frames from the start, the animation is at frame j of cell k and not finished |
| Animation.FinishesAfterOneLoop | src/animation.cpp:25-35 | one full loop (the sum of all cell lives) leads back to frame 0 of cell 0 with `finished` set, and no earlier count of updates sets it |
| Animation.Split | src/animation.cpp:21-38 | every count of updates short of a full loop falls j frames into some cell k, j below that cell's life |
| Animation.Animation.constructor | src/animation.cpp:10-12 | a new animation holds its cells and length and starts at frame 0 of cell 0, not finished |
| Animation.Animation.Reset | src/animation.cpp:14-19 | reset returns to frame 0 of cell 0, not finished |
| Animation.Animation.Update | src/animation.cpp:21-38 | a paused update changes nothing; an unpaused one moves the position exactly as Step says |
| Animation.InlineAnimation.constructor | src/animation.hpp:19-21 | the inline animation starts at frame 0 of cell 0 |
| Animation.InlineAnimation.Reset | src/animation.hpp:23-27 | reset returns to the start |
| Animation.InlineAnimation.Update | src/animation.hpp:29-40 | each update moves the position as Step says |
| Attributes.SetFieldSpec | src/attributes.cpp:37-49 | writing an attribute of at most 3 puts it in the metatile's 2-bit field of the byte and keeps the other six bits |
| Attributes.SetFieldOthers | src/attributes.cpp:37-49 | the fields of the three other metatiles that share the byte are unchanged |
| Attributes.AttributeIndexLayout | src/attributes.cpp:29-35 | on the left nametable the byte index set computes is the map decoder's attribute index for a 32-tile-wide map, below 64 |
| Attributes.AttributeIndexBound | src/attributes.cpp:29-35 | for meta_x below 32 and meta_y below 16 the index is below 128, inside the shadow table |
| Attributes.FieldAsInteger | src/attributes.cpp:37-47 | the field set writes is the 2-bit quadrant the map decoder extracts from the same byte (shift 4 for an odd row, 2 for an odd column) |
| Attributes.FieldOfSet | src/attributes.cpp:37-49 | the map decoder reads back from the written byte exactly the attribute written |
| Attributes.SetThenExtract | src/attributes.cpp:27-49 | after set on the left nametable, extracting the attribute of that metatile from the shadow table gives back the attribute: the writer and the tools/nexxt.rb reader agree |
| Attributes.DirtyWrite | src/attributes.cpp:14-19 | the queued write carries the shadow byte and an offset within the 64 attribute bytes of nametable A or D |
| Attributes.DirtyWriteUnchanged | src/attributes.cpp:14-19 | changing some other byte of the shadow table does not change the queued write of the dirty byte |
| Attributes.AttributeTable.constructor | src/attributes.cpp:6-8 | the shadow table starts as 128 zero bytes, unbuffered, with nothing sent |
| Attributes.AttributeTable.SendDirtyToVramBuffer | src/attributes.cpp:10-20 | no write when the dirty index is 0xff, otherwise exactly the write of the dirty byte is appended |
| Attributes.AttributeTable.FlushVramUpdate | src/attributes.cpp:22-25 | sends the dirty byte as above and turns buffering off |
| Attributes.AttributeTable.EnableVramBuffer | src/attributes.cpp:64-67 | buffering on, and no byte dirty (0xff) |
| Attributes.AttributeTable.Set | src/attributes.cpp:27-55 | the shadow table changes only in the metatile's byte, as SetField says; when buffering and the byte differs from the dirty one, the old dirty byte is sent and the new one becomes dirty, otherwise nothing is sent |
| Bag.InsertAt | src/bag.hpp:28-33 | the value lands at the random point, the item that was there moves to the end slot, and every other slot is unchanged |
| Bag.InsertAtPermutes | src/bag.hpp:22-37 | the filled part after an insert is, as a multiset, the filled part before plus the value; the slots past it are untouched |
| Bag.RandomPoint | src/utils.hpp:3 | RAND_UP_TO(end + 1) on a random byte: a point p from 0 to end with p * 256 <= draw * (end + 1) < (p + 1) * 256 |
| Bag.Bag.constructor | src/bag.hpp:15 | a new bag is empty: index and end are 0 |
| Bag.Bag.Reset | src/bag.hpp:17-20 | reset empties the bag |
| Bag.Bag.Insert | src/bag.hpp:22-37 | the items become InsertAt of the old items at the random point; end advances by one modulo N; the filled part gains exactly the value as a multiset |
| Bag.Bag.Take | src/bag.hpp:39-46 | returns the item at index and advances index by one modulo N, end unchanged |
| Bag.Bag.Peek | src/bag.hpp:48 | returns the item at index without changing the bag |
| BoardAnimation.Step | src/board-animation.cpp:49-59 | one unpaused update: a finished animation stays put; a frame of duration 0 finishes in place; below the duration the count rises; at it the next frame starts |
| BoardAnimation.Running | src/board-animation.cpp:49-59 | after the durations of the first k frames plus j updates the animation is at update j of frame k, not finished |
| BoardAnimation.FinishesAfterDurations | src/board-animation.cpp:49-59 | an animation ending in a 0-duration frame is unfinished for as many updates as its durations add up to, finished on the next, and stays finished on its last frame from then on |
| BoardAnimation.EndsAfterTotal | src/board-animation.cpp:52-54 | one update past the total of the durations the animation is finished on its last frame |
| BoardAnimation.Split | src/board-animation.cpp:49-59 | every count up to the total falls j updates into some frame k |
| BoardAnimation.StaysFinished | src/board-animation.cpp:50-51 | once finished, further updates change nothing |
| BoardAnimation.BlockJiggleFinishes | src/board-animation.cpp:10-14 | the block jiggle finishes on the 25th update and not before |
| BoardAnimation.BlockMoveRightFinishes | src/board-animation.cpp:15-16 | the move to the right finishes on the 5th update and not before |
| BoardAnimation.BlockMoveLeftFinishes | src/board-animation.cpp:17-18 | the move to the left finishes on the 5th update and not before |
| BoardAnimation.BlockArriveRightFinishes | src/board-animation.cpp:19-24 | the arrival from the right finishes on the 17th update and not before |
| BoardAnimation.BlockArriveLeftFinishes | src/board-animation.cpp:25-30 | the arrival from the left finishes on the 17th update and not before |
| BoardAnimation.BlockBreakRightFinishes | src/board-animation.cpp:31-35 | the break to the right finishes on the 13th update and not before |
| BoardAnimation.BlockBreakLeftFinishes | src/board-animation.cpp:36-40 | the break to the left finishes on the 13th update and not before |
| BoardAnimation.BoardAnimation.Default | src/board-animation.cpp:42 | the default animation has no frames and is finished |
| BoardAnimation.BoardAnimation.constructor | src/board-animation.cpp:44-47 | a new animation holds its frames, row and column, at the start |
| BoardAnimation.BoardAnimation.Update | src/board-animation.cpp:49-59 | paused or finished: no change; otherwise the position moves as Step says |
| Board.BoardIndex | src/board.cpp:19-26 | for a column inside the board the index is row * 12 + column, below 120; column 12 addresses the first cell of the next row |
| Board.WallsToIndex | src/board.cpp:320-336 | up, right, down and left contribute the weights 1, 2, 4 and 8; the index is their sum, below 16 |
| Board.WallsToIndexRoundTrip | src/board.cpp:320-336 | decoding the nibble gives back the four walls, so the map is injective |
| Board.WallsToIndexOnto | src/board.cpp:320-336 | every value 0..15 is the index of some set of walls |
| Board.WallsToIndexInjective | src/board.cpp:320-336 | two cells with the same index have the same walls |
| Board.OtherCellsKept | src/board.cpp:221-227 | occupying or freeing one cell leaves the occupancy of every other cell unchanged |
| Board.Board.constructor | src/board.cpp:17-32 | a new board has no walls and no occupied cell |
| Board.Board.Occupy | src/board.cpp:221-223 | only the row's bitset changes, by OR-ing in the column's mask; the cell then reads as occupied |
| Board.Board.Free | src/board.cpp:225-227 | only the row's bitset changes, by masking out the column's mask; the cell then reads as free |
| Board.Board.FilledRowIsOccupied | src/board.cpp:512-517 | a row whose bitset is 0x0fff has every one of its 12 cells occupied |
| Board.Board.SetWalls | src/board.cpp:73-74 | sets or clears a wall on a cell and the matching wall on the neighbour across it, and nothing else |
| Board.Board.ResetWalls | src/board.cpp:37-42 | every cell loses all its walls |
| Board.Board.RequiredWalls | src/board.cpp:51-60 | each cell whose template value is not 0xff takes the template's walls; the 0xff cells are left as they were |
| Board.Board.AddWall | src/board.cpp:92-115 | walls only grow; the cell gains the wall when it is needed, and so does the neighbour across it when that neighbour is on the board |
| Board.Board.MaybeCell | src/board.cpp:65-115 | one cell of the "maybe walls" pass takes exactly its share of the draws and only adds walls |
| Board.Board.BerzerkCell | src/board.cpp:68-90 | a 0xff cell takes one draw and walls one of the four sides of its 2x2 square, chosen by the draw mod 4, from both sides |
| Board.Board.NeedWalls | src/board.cpp:92-115 | the cell gains each maybe wall whose draw came up 0, in the order up, down, left, right, and nothing else |
| Board.Board.NeedWall | src/board.cpp:44-45 | one maybe wall takes a draw only if its maybe bit is set and is added when the draw mod 4 is 0 |
| Board.Board.MaybeWalls | src/board.cpp:62-117 | the whole pass takes exactly the draws the template calls for, only adds walls, and keeps walls two-sided |
| Board.Board.MaybeRow | src/board.cpp:63-117 | one row of the pass takes that row's draws and only adds walls |
| Board.Board.BorderWalls | src/board.cpp:120-129 | the whole border is walled, no interior wall changes, and two-sided walls stay two-sided |
| Board.Board.FreeAll | src/board.cpp:194-199 | afterwards no cell is occupied |
| Board.Board.FirstPassCell | src/board.cpp:136-142 | after a cell's step, it shares a class with its right and down neighbours whenever the wall between them is open |
| Board.Board.FirstPassRight | src/board.cpp:137-139 | an open right wall joins the cell with its right neighbour; classes only merge |
| Board.Board.FirstPassDown | src/board.cpp:140-142 | an open down wall joins the cell with the one below; classes only merge |
| Board.Board.FirstPass | src/board.cpp:133-144 | after the first pass every two cells with an open wall between them are in one class, and every class is reachable by open passages |
| Board.Board.MergeDown | src/board.cpp:171-176 | when the cell below is in another class, the wall between them is opened on both sides and the classes are joined; the border stays walled |
| Board.Board.MergeRight | src/board.cpp:178-183 | the same for the right neighbour |
| Board.Board.MergeAcross | src/board.cpp:171-189 | opening a wall between two cells of different classes joins them, keeping every class walkable |
| Board.Board.Open | src/board.cpp:173-174 | clears the wall on both sides; the border stays walled and open passages only grow |
| Board.Board.MergeCell | src/board.cpp:162-190 | whichever direction the draw tries first, the cell ends in one class with its right and down neighbours |
| Board.Board.MergePass | src/board.cpp:157-192 | after visiting every cell once, in the order the two bags give, all 120 cells are in one class, the border is still walled and every class is still walkable; it takes one draw per cell |
| Board.Board.Connect | src/board.cpp:131-192 | from a walled border, the union-find passes leave a maze in which every cell reaches every other through open walls, with the border still walled |
| Board.Board.GenerateMaze | src/board.cpp:36-200 | the generated maze keeps its outer walls, connects all 120 cells, keeps walls two-sided when the template's required walls are, and ends with every cell free |
| Board.Value | src/board.cpp:56 | the low nibble of a template cell's value is its required walls and the high nibble its maybe walls |
| Board.ValueMarked | src/board.cpp:56 | the value is 0xff exactly when all eight wall bits are set |
| Board.DrawsFor | src/board.cpp:68-115 | a cell takes at most four draws |
| Board.MaybeDraws | src/board.cpp:62-117 | the first n cells take at most four draws each |
| Board.NeedCellWalls | src/board.cpp:92-115 | after the maybe pass a cell has a wall exactly when it had it or the template needed it |
| Board.BorderedFacts | src/board.cpp:120-129 | the bordered grid walls the whole border, agrees with the old grid inside, only grows and stays two-sided |
| Board.JoinAlong | src/board.cpp:137-142 | joining two cells with an open passage between them merges their classes and keeps every class walkable |
| Board.MergedAll | src/board.cpp:157-192 | once every (row, column) pair from the two bags has been linked, and the bags hold each row and column once, all cells are linked |
| Board.RangeMembers | src/board.cpp:146-155 | a bag filled with 0..n-1 in any order holds exactly those values |
| Board.FillBag | src/board.cpp:146-155 | filling an empty bag inserts every value from 0 to its size minus one once, in some order |
| Board.RequiredGrid | src/board.cpp:51-60 | the walls after the required pass: the template's walls, none for a 0xff cell |
| Charset.TranslateUnicode | src/charset.hpp:38-57 | C0 control codes map to themselves (so the terminator maps to 0) and the digits map to 0x64 plus the digit |
| Charset.LettersConsecutive | src/charset.hpp:58-61 | 'a'..'i' and 'k'..'y' map into 0x04..0x1b, in alphabetical order, skipping 'j' |
| Charset.LettersInjective | src/charset.hpp:58-61 | two different mapped letters give two different tiles |
| Charset.UnmappedCharacters | src/charset.hpp:40-42 | 'j', 'z', 'A' and 0x80 fall to the default case and give 0xff |
| Charset.UnmappedExactly | src/charset.hpp:38-74 | a character gives 0xff exactly when it is none of the listed cases: control code, space, '!', '?', '-', digit, mapped letter, B, H, P, G, F, M, R or S |
| Charset.Translate | src/charset.hpp:15-36 | the tile string has the length of its source and tile i is the translation of character i |
| Charset.CodePoints | src/charset.hpp:15-36 | a string literal is read as the sequence of its code points |
| Charset.Ts | src/charset.hpp:81-83 | a `_ts` literal has one tile per character plus the terminating 0 |
| Charset.TileString.constructor | src/charset.hpp:15-36 | the new string has the source's length and holds the translation of each source character at the same position |
| Cheats.CodesAreLiterals | src/cheats.cpp:26-32 | the three codes compared against are the first four tiles of "high", "cafe" and "fate" |
| Cheats.Completed | src/cheats.cpp:32-36 | "fate" marks the four stages before the last as completed and leaves the last as it was |
| Cheats.Push | src/cheats.cpp:17-40 | the code is stored at the index, which advances modulo 4; before the fourth push of a group no flag changes, and on it "high", "cafe" or "fate" raises its own flag and any other group changes nothing; no flag is ever cleared |
| Cheats.PushAll | src/cheats.cpp:17-40 | any sequence of pushes keeps the entry well formed |
| Cheats.PushAllFlags | src/cheats.cpp:17-40 | from a group boundary, the index ends at the count mod 4 with the unfinished group in the buffer, and each flag is raised exactly when one of the completed non-overlapping groups of four spells its code |
| Cheats.PushWithinGroup | src/cheats.cpp:21-23 | a push that does not complete a group keeps that summary |
| Cheats.PushEndsGroup | src/cheats.cpp:23-38 | a push that completes a group adds exactly that group to the ones compared |
| Cheats.SameGroups | src/cheats.cpp:23 | until a group is complete, the set of completed groups does not change |
| Cheats.NewGroup | src/cheats.cpp:23-26 | completing a group adds exactly the last four codes to the completed groups |
| Cheats.CompletedIdempotent | src/cheats.cpp:32-36 | entering "fate" a second time changes nothing more |
| Cheats.StrayPushHidesCode | src/cheats.cpp:23-27 | one stray push before "high" shifts the groups, so the code is not recognised: the matcher is not a sliding window |
| Cheats.AlignedCodeMatches | src/cheats.cpp:23-27 | after a full group of anything, "high" is recognised |
| Cheats.Cheats.constructor | src/cheats.cpp:13-15 | the code is zeroed, the index is 0 and both flags are false |
| Cheats.Cheats.PushCode | src/cheats.cpp:17-40 | the code buffer, index, flags and story completion change exactly as Push says |
| Cheats.Cheats.Reset | src/cheats.cpp:42-46 | the index and both flags are cleared; the code buffer and story completion are not touched |
| CircularBuffer.Wrap | src/circular-buffer.hpp:16-30 | advancing k steps from i wraps modulo N |
| CircularBuffer.SizeOf | src/circular-buffer.hpp:36-44 | the size is (end - index) mod N, below N; index advanced by the size is end; the size is 0 exactly when index == end |
| CircularBuffer.Window | src/circular-buffer.hpp:16-44 | the contents are the size-many items from index onwards, wrapping around the array |
| CircularBuffer.WindowInsert | src/circular-buffer.hpp:16-21 | with fewer than N - 1 items held, an insert appends the value at the back of the contents |
| CircularBuffer.WindowTake | src/circular-buffer.hpp:23-30 | on a non-empty buffer, take removes the front of the contents and returns it |
| CircularBuffer.InsertIntoFullEmpties | src/circular-buffer.hpp:16-21 | inserting into a buffer that holds N - 1 items brings end back to index, so the buffer then reads as empty: overflow is not detected |
| CircularBuffer.AdvanceByWrap | src/circular-buffer.hpp:16-21 | k inserts move end by k modulo N |
| CircularBuffer.FullCircle | src/circular-buffer.hpp:16-21 | N inserts with no take bring end back where it was |
| CircularBuffer.CircularBuffer.constructor | src/circular-buffer.hpp:14 | a new buffer has index = end = 0 and is empty |
| CircularBuffer.CircularBuffer.Insert | src/circular-buffer.hpp:16-21 | the value is stored at end, which advances modulo N; below N - 1 items it joins the back of the contents (FIFO), at N - 1 the buffer then reads as empty |
| CircularBuffer.CircularBuffer.Take | src/circular-buffer.hpp:23-30 | returns the item at index and advances index modulo N; on a non-empty buffer it is the front of the contents and the rest stay in order |
| CircularBuffer.CircularBuffer.Peek | src/circular-buffer.hpp:32-34 | returns the item at index, the front of the contents when there is one, and changes nothing |
| CircularBuffer.CircularBuffer.Empty | src/circular-buffer.hpp:36 | true exactly when the size is 0, that is when the contents are empty |
| Common.Advance | src/circular-buffer.hpp:17-20 | incrementing a u8 index and resetting it at N is (i + 1) mod N, 0 exactly after N - 1 |
| DonutPlanes.Rows | tools/donut.c:168 | a plane is read as its eight bytes, most significant first |
| DonutPlanes.RowsOfRows | tools/donut.c:156-157 | building a plane from eight bytes and reading its bytes back gives the same bytes |
| DonutPlanes.OfRowsRows | tools/donut.c:156-157 | reading a plane's bytes and building a plane from them gives the same plane |
| DonutPlanes.ShiftRow | tools/donut.c:168 | `src >> (8*(7-i))` truncated to a byte is byte i of the plane, counted from the most significant |
| DonutPlanes.FlagsLow | tools/donut.c:163-177 | packing n bytes sets no flag bit below the top n |
| DonutPlanes.FlagBit | tools/donut.c:163-177 | flag bit 0x80 >> i is set exactly when byte i differs from the byte before it, starting from top_value |
| DonutPlanes.Unpack | tools/donut.c:144-161 | unpacking n flag bits yields n bytes |
| DonutPlanes.LiteralsLength | tools/donut.c:163-177 | pack writes one literal per set flag bit, never more than the bytes packed |
| DonutPlanes.UnpackLiterals | tools/donut.c:144-177 | unpacking the flags and literals that pack wrote, whatever follows them, gives back the bytes packed |
| DonutPlanes.Pb8RoundTrip | tools/donut.c:144-177 | `donut_unpack_pb8(donut_pack_pb8(v, t), t)` yields v and consumes exactly the bytes pack wrote |
| DonutPlanes.Pb8DecodeSplit | tools/donut.c:144-161 | the decoder reads the flag byte and then as many literals as flags are set |
| DonutPlanes.Pb8Length | tools/donut.c:163-177 | pack writes 1 + (number of set flag bits) bytes, from 1 to 9 |
| DonutPlanes.LiteralsSnoc | tools/donut.c:167-174 | each loop step appends byte i to the literals exactly when it changed |
| DonutPlanes.FlagsSnoc | tools/donut.c:167-174 | each loop step ORs in flag 0x80 >> i exactly when byte i changed |
| DonutPlanes.PackStepChanged | tools/donut.c:169-173 | a changed byte is written, becomes the predicted byte and sets its flag |
| DonutPlanes.PackStepSame | tools/donut.c:169 | a repeated byte is skipped |
| DonutPlanes.PackPb8 | tools/donut.c:163-177 | the loop writes exactly the flag byte and literals of the pb8 encoding, 1 to 9 bytes |
| DonutPlanes.UnpackSet | tools/donut.c:151-154 | a set flag reads the next literal and makes it the current byte |
| DonutPlanes.UnpackClear | tools/donut.c:151-157 | a clear flag repeats the current byte and reads nothing |
| DonutPlanes.UnpackStepSet | tools/donut.c:150-158 | one decoder step on a set flag keeps the loop invariant, reading one byte |
| DonutPlanes.UnpackStepClear | tools/donut.c:150-158 | one decoder step on a clear flag keeps the loop invariant, reading nothing |
| DonutPlanes.UnpackStateDone | tools/donut.c:159-160 | after eight steps the plane and read count are the pb8 decoding |
| DonutPlanes.UnpackPb8 | tools/donut.c:144-161 | the loop returns the plane whose bytes are the pb8 decoding of the source and the count of bytes read |
| DonutPlanes.UsedAtMost | tools/donut.c:144-161 | n flag bits call for at most n literals |
| DonutPlanes.Popcount | tools/donut.c:247-253 | the parallel bit count is the number of set bits, at most 8 |
| DonutPlanes.TransposeIsBits | tools/donut.c:179-195 | the flip is the bit transpose: bit j of result byte i is bit i of input byte j |
| DonutPlanes.TransposeInvolution | tools/donut.c:179-195 | flipping twice gives back the plane |
| DonutPlanes.TransposeXor | tools/donut.c:179-195 | the flip commutes with XOR |
| DonutPlanes.TransposeFixed | tools/donut.c:184-185 | 0 and all-ones are their own flip |
| DonutPlanes.GatherByMultiply | tools/donut.c:187-191 | masking with 0x0101..01, multiplying by 0x0102040810204080 and shifting by 56 gathers the low bit of each byte into one byte |
| DonutPlanes.PartialTransposeAll | tools/donut.c:186-193 | after all eight columns the accumulated result is the transpose |
| DonutPlanes.GatherColumnAt | tools/donut.c:187-191 | one loop body computes column i of the plane |
| DonutPlanes.FlipStep | tools/donut.c:192 | OR-ing in column i as byte i keeps the partial transpose invariant |
| DonutPlanes.FlipPlane | tools/donut.c:179-195 | the result is the transpose of the plane, and 0 and all-ones come back unchanged |
| DonutBlock.LEReadLE | tools/donut.c:128-142 | writing a plane little-endian after reading it little-endian gives back the eight bytes |
| DonutBlock.DefaultPlaneDef | tools/donut.c:216 | bits 2-3 of the header select the default plane definition 0x00, 0x55, 0xaa or 0xff |
| DonutBlock.Predicted | tools/donut.c:225-227 | the predicted plane is all zeros or all ones, from header bit 0x20 for even planes and 0x10 for odd ones |
| DonutBlock.DecodePlane | tools/donut.c:228-232 | a coded plane reads 1 to 9 bytes |
| DonutBlock.Planes | tools/donut.c:224-243 | the eight planes are read in order, each coded plane moving the read position past its packet, or back to position 2 in single-plane mode |
| DonutBlock.PairBytes | tools/donut.c:234-241 | each pair of planes writes 16 bytes |
| DonutBlock.CombineLength | tools/donut.c:234-241 | n planes write 8n bytes |
| DonutBlock.BlockDecodeFixed | tools/donut.c:198-215 | a header of 0xc0 or more writes nothing and reads nothing; a header with bits 1-5 clear writes 64 zero bytes and reads 1; header 0x2a copies the next 64 bytes and reads 65 |
| DonutBlock.BlockDecodeBounds | tools/donut.c:198-245 | a header below 0xc0 always writes 64 bytes and reads 1 to 74 bytes; a header of 0xc0 or more reads none |
| DonutBlock.CombineSnoc | tools/donut.c:234-241 | each odd plane appends the 16 bytes of its pair |
| DonutBlock.ReadStepCoded | tools/donut.c:228-233 | a set plane-definition bit reads the plane's packet and keeps the read invariant |
| DonutBlock.ReadStepPredicted | tools/donut.c:225-233 | a clear bit keeps the predicted plane and reads nothing |
| DonutBlock.PlanesCoded | tools/donut.c:228-233 | the specification reads a coded plane the same way |
| DonutBlock.PlanesPredicted | tools/donut.c:225-233 | and a predicted plane the same way |
| DonutBlock.WriteStepEven | tools/donut.c:234-242 | an even plane is held back as the previous plane |
| DonutBlock.WriteStepOdd | tools/donut.c:234-242 | an odd plane writes the XOR-combined pair |
| DonutBlock.StartPos | tools/donut.c:204-222 | reading starts after the header, or after the plane-definition byte when header bit 1 is set |
| DonutBlock.ReadStart | tools/donut.c:216-223 | before the first plane the decoder has read nothing the specification has not |
| DonutBlock.ReadDone | tools/donut.c:224-244 | after the eighth plane the bytes written and the read count are the block decoding |
| DonutBlock.PredictPlane | tools/donut.c:225-227 | computes the predicted plane |
| DonutBlock.ReadPlane | tools/donut.c:228-232 | reads and, for header bit 0, flips one coded plane, as DecodePlane says |
| DonutBlock.PlanesStep | tools/donut.c:224-243 | one plane of the loop keeps the invariant |
| DonutBlock.UnpackPlanes | tools/donut.c:216-244 | the plane loop writes the 64 bytes and returns the read count the block decoding gives |
| DonutBlock.UnpackBlock | tools/donut.c:198-245 | donut_unpack_block writes and reads exactly what the block decoding says |
| DonutCost.DefaultPlaneCount | tools/donut.c:268 | the table lookup `0x08040400 >> ((h & 0x0c) << 1)` is the number of coded planes of the default plane definition |
| DonutCost.DefaultCounts | tools/donut.c:267-268 | the two table lookups agree: the pb8 count is the bit count of the plane definition |
| DonutCost.DeclaredCount | tools/donut.c:267-277 | a block declares at most 8 coded planes |
| DonutCost.HeaderCost | tools/donut.c:263-266 | the fixed part of the cost is 1298 plus 640 for XOR bits, 4 per all-ones prediction and 5 for an explicit plane definition |
| DonutCost.PlaneCost | tools/donut.c:278 | each coded plane costs 614 cycles when flipped and 75 otherwise |
| DonutCost.BlockCost | tools/donut.c:256-286 | an empty buffer, a header of 0xc0 or more and a header with a missing plane-definition byte cost 0; the raw block 0x2a costs 1268 |
| DonutCost.CodedCostAtLeast | tools/donut.c:256-286 | a well-formed coded block costs at least 1298 cycles, more than the raw block |
| DonutCost.SingleCost | tools/donut.c:427-430 | turning a block whose packets all repeat into single-plane mode adds exactly pb8_count cycles, as the encoder assumes |
| DonutCost.DefCost | tools/donut.c:263-285 | the cost of a block with an explicit plane definition, in closed form |
| DonutCost.SingleDefCost | tools/donut.c:276-285 | the cost of a single-plane block: the one packet's bytes are counted once per coded plane |
| DonutCost.SetSingleBit | tools/donut.c:428 | setting bit 0x04 changes neither the fixed nor the per-plane cost |
| DonutCost.ElidedCost | tools/donut.c:433-441 | dropping the plane-definition byte for a default definition saves exactly 5 cycles |
| DonutModes.Load | tools/donut.c:371-373 | 64 source bytes give 8 planes, each read little-endian |
| DonutModes.Packet | tools/donut.c:410-411 | a plane equal to its prediction writes nothing; any other writes a pb8 packet of 1 to 9 bytes |
| DonutModes.PacketsFrom | tools/donut.c:399-420 | the packets of planes i..7 take at most 9 bytes each |
| DonutModes.CountFrom | tools/donut.c:399-420 | at most one coded plane per plane |
| DonutModes.DecodedFrom | tools/donut.c:224-243 | the decoder's view of planes i..7 has one plane each |
| DonutModes.Basic | tools/donut.c:421-422 | the basic candidate starts with the header a with bit 0x02 set and the plane definition |
| DonutModes.DefaultCode | tools/donut.c:433-436 | a default plane definition is coded in bits 2-3 of the header only |
| DonutModes.Elided | tools/donut.c:433-441 | the candidate without the plane-definition byte |
| DonutModes.Single | tools/donut.c:428-429 | the single-plane candidate keeps the header, the definition and the first packet's bytes |
| DonutModes.Matched | tools/donut.c:454-458 | the single-plane candidate whose one packet codes the first non-predicted plane |
| DonutModes.DefFromLow | tools/donut.c:409-413 | after planes i..7 are shifted in, the low bits of the definition are clear |
| DonutModes.DefFromHead | tools/donut.c:409-413 | the definition's top bit says whether the plane is coded |
| DonutModes.DefFromCount | tools/donut.c:409-413 | the set bits of the definition count the coded planes |
| DonutModes.DefCount | tools/donut.c:413 | pb8_count is the popcount of the plane definition |
| DonutModes.SamePrediction | tools/donut.c:226-227 | decoder and encoder predict the same plane from the same header bits |
| DonutModes.UncodedDecoded | tools/donut.c:410 | a plane that is not coded is its prediction, which the decoder also uses |
| DonutModes.PacketDecodes | tools/donut.c:228-232 | the decoder reads each packet the encoder wrote back as the encoded plane, consuming the packet |
| DonutModes.TopIrrelevant | tools/donut.c:144-161 | a packet whose first flag is set decodes the same whatever the predicted top value |
| DonutModes.ForcedPacketDecodes | tools/donut.c:454-458 | the forced packet decodes to the plane in every plane slot |
| DonutModes.ForcedTopDiffers | tools/donut.c:458 | `~(plane >> 56)` differs from the plane's first byte, so that byte is always a literal |
| DonutModes.DecodeFrom | tools/donut.c:224-243 | reading planes i..7 of a candidate whose packets follow gives the encoded planes and ends after them |
| DonutModes.SingleFrom | tools/donut.c:229 | in single-plane mode every coded plane reads the same packet at position 2 |
| DonutModes.ModeDecoded | tools/donut.c:399-408 | the plane a mode stores is what the decoder reconstructs before XOR |
| DonutModes.MixedFlip | tools/donut.c:231 | flipping commutes with the XOR mixing of a pair |
| DonutModes.PairRestores | tools/donut.c:234-236 | the decoder's XOR undoes the encoder's XOR: each pair of planes is restored |
| DonutModes.PairXor | tools/donut.c:402-408 | the XOR mixing of a pair of planes is undone by the decoder's mixing |
| DonutModes.PairOut | tools/donut.c:237-240 | the pair of decoded planes is written back as the 16 source bytes |
| DonutModes.SourceBytesOf | tools/donut.c:371-373 | the planes read from 64 bytes give those bytes back in order |
| DonutModes.PlanesGiveSource | tools/donut.c:198-245 | for every mode, decoding the planes the mode stores writes back the 64 source bytes |
| DonutPack.RepeatLength | tools/donut.c:429 | n copies of a packet are n times its length |
| DonutPack.FirstPacket | tools/donut.c:414-415 | the packet of the first coded plane, 1 to 9 bytes when some plane is coded |
| DonutPack.PacketsRepeat | tools/donut.c:399-420 | when every coded plane writes the same packet, the payload is that packet repeated once per coded plane |
| DonutPack.FirstPacketStarts | tools/donut.c:411-415 | the payload starts with the first coded plane's packet |
| DonutPack.SamePacketsSplit | tools/donut.c:427-429 | with equal packets the payload splits evenly into pb8_count shares, each the first packet |
| DonutPack.BasicHeader | tools/donut.c:421 | a with bit 0x02 set is a coded header with an explicit plane definition, read and written in mode a |
| DonutPack.SingleHeader | tools/donut.c:428 | a with bits 0x06 set is a single-plane header of mode a |
| DonutPack.ElidedHeader | tools/donut.c:433-436 | a combined with i >> 1 is a header whose default plane definition is the elided one |
| DonutPack.BasicDecodes | tools/donut.c:399-422 | the basic block of every mode decodes to the 64 source bytes and is read to its end |
| DonutPack.BasicDecodesWith | tools/donut.c:399-422 | whatever follows it in the stream |
| DonutPack.ElidedDecodes | tools/donut.c:433-441 | the block with its default plane definition dropped still decodes to the source |
| DonutPack.ElidedDecodesWith | tools/donut.c:433-441 | whatever follows it in the stream |
| DonutPack.ZeroOut | tools/donut.c:205-210 | with no coded plane and zero predictions the decoded block is 64 zero bytes |
| DonutPack.NoneCoded | tools/donut.c:410-419 | a count of 0 means no plane is coded and there is no payload |
| DonutPack.SingleDecodes | tools/donut.c:427-431 | when all coded planes share one packet the single-plane block decodes to the source |
| DonutPack.SingleDecodesWith | tools/donut.c:427-431 | whatever follows it in the stream |
| DonutPack.MatchedDecodes | tools/donut.c:454-465 | when every coded plane stores the same value, the single-plane block with a forced literal first row decodes to the source |
| DonutPack.RawDecodes | tools/donut.c:365-366 | the raw block 0x2a followed by the source decodes to the source, read as 65 bytes |
| DonutPack.Limit | tools/donut.c:362 | a limit of 0 stands for 16384; any other limit is kept |
| DonutPack.Offer | tools/donut.c:446-450 | a candidate replaces the best block only if it is no longer, cheaper or shorter, and within the limit; the best block always decodes to the source |
| DonutPack.PackMode | tools/donut.c:392-466 | one mode keeps the best block decoding to the source, never longer, and no longer than the mode's basic block when that is within the limit |
| DonutPack.Rewrite | tools/donut.c:423-442 | the basic block or its single-plane or elided rewrite decodes to the source, is no longer than the basic block, and is within the limit whenever the basic block is |
| DonutPack.PackBlock | tools/donut.c:354-471 | the result decodes to the 64 source bytes and is read to its end; it is 1 to 65 bytes; it is the raw block when the limit is below 1298, else the raw block or a block within the limit; and it is no longer than the basic block of any of the 24 modes that fits the limit |
| DonutPack.AllTried | tools/donut.c:385-386 | when the loop stops, all 24 modes have been tried |
| DonutPack.FirstRoundTried | tools/donut.c:385-390 | after 0xb0 the twelve unflipped modes have been tried |
| DonutPack.NextMode | tools/donut.c:467 | each mode extends the set of modes tried |
| DonutPack.NoCodedBlock | tools/donut.c:369-370 | below 1298 cycles no coded block fits, so the raw block is all there is |
| DonutPack.BasicCost | tools/donut.c:263 | every basic block costs at least 1298 cycles |
| DonutPack.PacketsAtLeast | tools/donut.c:411 | each coded plane writes at least one byte |
| DonutPack.SharedCandidate | tools/donut.c:427-431 | the single-plane rewrite of a block with shared packets decodes to the source, is shorter and costs pb8_count more cycles |
| DonutPack.SharedShare | tools/donut.c:429 | `(len - 2) / pb8_count` is the first packet's length |
| DonutPack.SharedCost | tools/donut.c:430 | the rewrite costs exactly pb8_count cycles more, as the encoder adds |
| DonutPack.SingleCostOf | tools/donut.c:427-430 | the cost of the single-plane block in terms of the basic block's |
| DonutPack.ShareShorter | tools/donut.c:429 | with two or more planes the share is shorter than the payload |
| DonutPack.ElidedCandidate | tools/donut.c:433-441 | the elided block decodes to the source, is shorter and costs 5 cycles less, as the encoder subtracts |
| DonutPack.ElidedShorter | tools/donut.c:436-438 | the elided block is one byte shorter and 5 cycles cheaper |
| DonutPack.Pos | tools/donut.c:347-348 | the index c cycles through one share |
| DonutPack.Pb8PlanesMatch | tools/donut.c:338-351 | the check as written accepts exactly a payload of two or more planes that splits evenly and repeats with the period of one share |
| DonutPack.ShareWithin | tools/donut.c:343-345 | the share is no longer than the payload, and empty only for an empty payload |
| DonutPack.PosNext | tools/donut.c:347-348 | one step moves c to the next place in the share, wrapping at its end |
| DonutPack.ExamplePlanes | tools/donut.c:371-373 | the planes of a 64-byte source whose two coded planes have different packet lengths |
| DonutPack.SharedCheckAcceptsUnequalPackets | tools/donut.c:338-351 | for that source the check as written accepts packets of 2 and 4 bytes because their payload repeats with period 3; the single-plane block it would write cannot decode to any 64 bytes |
| DonutPack.SingleReadShort | tools/donut.c:224-244 | the decoder reads that single-plane block as 4 bytes, not 5 |
| DonutStream.Window | tools/donut.c:484-487 | a short tail is read zero-padded to the longest block, and a long one as it is |
| DonutStream.NextAgrees | tools/donut.c:484-498 | the loop's block reader, padding short tails, is the block decoder applied at the read position |
| DonutStream.NextWholeBlocks | tools/donut.c:198-245 | every block read writes 64 bytes |
| DonutStream.DecodedBounds | tools/donut.c:473-503 | decompression never writes past dst_capacity, writes a multiple of 64 bytes and never reads past src_length |
| DonutStream.StreamBounds | tools/donut.c:479-499 | the same for any reader that writes whole blocks |
| DonutStream.DecodedStops | tools/donut.c:494-496 | a stream starting with a header of 0xc0 or more decodes to nothing and reads nothing |
| DonutStream.Decompress | tools/donut.c:473-503 | the loop returns the stream decoding of the source: within the capacity, whole blocks, within the source |
| DonutStream.DecompressLoop | tools/donut.c:479-499 | the loop's bytes written and read are the stream decoding |
| DonutStream.UnpackAt | tools/donut.c:484-496 | one block is read at the current position, zero-padding a short tail; a block read writes 64 bytes |
| DonutStream.ProgressStart | tools/donut.c:476-477 | nothing written or read is a prefix of the decoding |
| DonutStream.ProgressEnd | tools/donut.c:482-496 | each exit of the loop is where the decoding ends |
| DonutStream.ProgressStep | tools/donut.c:489-498 | one block read extends the prefix of the decoding |
| DonutStream.NextReads | tools/donut.c:473-503 | a block that decodes to 64 bytes is read as those bytes at the head of any stream |
| DonutStream.StreamOfBlocks | tools/donut.c:473-503 | a run of coded blocks decompresses to the chunks they code, read to the end, given room for every chunk |
| DonutStream.Compress | tools/donut.c:505-534 | donut_compress reads only whole 64-byte blocks, stays within dst_capacity and within ceil(n/64)*65, stops only with less than a block of source or less than 65 bytes of room, and its output decompresses to exactly the source read; with room of donut_compress_bound it reads every whole block |
| DonutStream.CompressLoop | tools/donut.c:511-530 | the loop keeps those bounds and the round trip |
| DonutStream.CodedSnoc | tools/donut.c:521-529 | each block written extends the run of coded blocks |
| DonutStream.PackChunk | tools/donut.c:519-526 | one chunk packs to 1 to 65 bytes read back as the chunk |
| DonutStream.CompressReadsAll | tools/donut.c:79-81 | with room for donut_compress_bound the loop stops only at the last whole block |
| FixedPoint.Whole | src/fixed-point.hpp:5-12 | the signed high byte of the value: whole * 256 <= value < whole * 256 + 256 |
| FixedPoint.Frac | src/fixed-point.hpp:5-12 | the unsigned low byte: value == whole * 256 + frac |
| FixedPoint.FromParts | src/fixed-point.hpp:16 | the (w, f) constructor builds the value whose whole is w and whose frac is f |
| FixedPoint.PartsRoundTrip | src/fixed-point.hpp:5-16 | rebuilding a value from its whole and frac gives it back |
| FixedPoint.Add | src/fixed-point.hpp:18-20 | `+` is addition modulo 2^16 on the value |
| FixedPoint.Sub | src/fixed-point.hpp:21-23 | `-` is subtraction modulo 2^16 |
| FixedPoint.Neg | src/fixed-point.hpp:24 | unary `-` is 0 - x, so x + (-x) is 0 modulo 2^16 |
| FixedPoint.SubSelf | src/fixed-point.hpp:21-23 | x - x == 0 |
| FixedPoint.AddCommutes | src/fixed-point.hpp:18-20 | `+` commutes |
| FixedPoint.SubAdd | src/fixed-point.hpp:18-23 | (a + b) - b == a, also across wrap-around; `+=` followed by `-=` of the same value restores the variable |
| FixedPoint.AddAssociates | src/fixed-point.hpp:18-20 | `+` associates, so a chain of `+=` does not depend on grouping |
| FixedPoint.NegNeg | src/fixed-point.hpp:24 | -(-x) == x, including for -32768 |
| FixedPoint.MulU8 | src/fixed-point.hpp:25-27 | `* rhs` multiplies the value and truncates to 16 bits |
| FixedPoint.DivU8 | src/fixed-point.hpp:28-30 | `/ rhs` divides the value truncating toward zero: the remainder has the sign of the value and is smaller than rhs |
| FixedPoint.DivBounds | src/fixed-point.hpp:28-30 | C division of a 16-bit value by a byte stays within 16 bits and truncates toward zero |
| FixedPoint.ComparisonsAreIntegerOrder | src/fixed-point.hpp:39-55 | `>`, `<=`, `>=` and `!=` are the integer order on the values, and exactly one of `<`, `==`, `>` holds |
| FixedPoint.Round | src/fixed-point.hpp:57-71 | below half a unit the whole part; from half a unit up, whole + 1 for a non-negative whole and whole - 1 for a negative one |
| FixedPoint.RoundNonNegative | src/fixed-point.hpp:58-63 | for a non-negative whole, round is rounding half up: (value + 128) / 256 |
| FixedPoint.RoundNearest | src/fixed-point.hpp:57-71 | the integer nearest the value, halves rounded up |
| FixedPoint.RoundAgainstNearest | src/fixed-point.hpp:64-69 | round agrees with the nearest integer except for a negative whole with frac >= 0x80, where it gives two less |
| FixedPoint.RoundNegativeQuarter | src/fixed-point.hpp:64-66 | -0.25 (whole -1, frac 0xc0) rounds to -2, not 0 |
| Utils.DigitTile | src/utils.cpp:29 | digit d is shown as the tile 0x64 + d |
| Utils.Digits4 | src/utils.cpp:32-90 | the four decimal digits of a value up to 9999, most significant first |
| Utils.ScoreTiles | src/utils.cpp:32-99 | the four tiles int_to_text writes |
| Utils.ScoreTilesShowValue | src/utils.cpp:32-99 | the tiles read back as the value; the last digit is never darkened; each of the first three is the dark zero tile exactly when it and every digit before it are 0 |
| Utils.TwoDigitTiles | src/utils.cpp:5-30 | the two tiles u8_to_text writes |
| Utils.TwoDigitTilesShowValue | src/utils.cpp:5-30 | the tiles read back as the value, the first is the dark zero exactly when the value is below 10 |
| Utils.GreedyBits | src/utils.cpp:33-50 | subtracting 8, 4, 2 and 1 times the place value in turn finds the digit at that place and the remainder, for a value below ten places |
| Utils.GreedyStep | src/utils.cpp:34-37 | one comparison sets its bit of the digit exactly when the remainder allows it |
| Utils.U8ToText | src/utils.cpp:5-30 | for value < 100 the two tiles are TwoDigitTiles(value); only indices 0 and 1 are written |
| Utils.IntToText | src/utils.cpp:32-99 | for value <= 9999 the four tiles are ScoreTiles(value); only indices 0..3 are written |
| Utils.TileOfDigit | src/utils.cpp:50 | adding the digit to DIGITS_BASE_TILE never wraps |
| Utils.DarkenedDigitsAreScoreTiles | src/utils.cpp:92-98 | darkening the four digit tiles gives ScoreTiles |
| Utils.Darkened | src/utils.cpp:92-98 | darkening keeps the last tile |
| Utils.DimPrefixIsLeadingZero | src/utils.cpp:93-97 | the loop darkens a tile exactly when it and every tile before it show 0 |
| Utils.DarkenLeadingZeros | src/utils.cpp:92-98 | the loop replaces leading zero tiles among the first three by the dark zero and stops at the first nonzero one |
| Utils.RandUpToMacro | src/utils.hpp:3 | RAND_UP_TO(n) is below n, the draw scaled by n / 256 |
| Utils.ScaleBound | src/utils.hpp:3 | (draw * n) >> 8 is below n |
| Utils.Low5 | src/utils.cpp:102 | `rand8() & 31` is the draw mod 32 |
| Utils.RandUpTo | src/utils.cpp:101-107 | for n > 0 the result is (draw & 31) mod n, below n |
| Walls.WithWall | src/cell.hpp:13-25 | setting one wall bit leaves the other three unchanged |
| Walls.Opposite | src/board.cpp:73-74 | each side has a different opposite side |
| Walls.AtInjective | src/board.cpp:19-26 | different cells have different board indices, all below 120 |
| Walls.CellOf | src/board.cpp:19-26 | every index below 120 is some cell's |
| Walls.SetWallPair | src/board.cpp:73-115 | setting a wall on a cell and the neighbour across it |
| Walls.SetWallPairFacts | src/board.cpp:73-115 | the cell gets the wall; the neighbour across, when on the board, gets the opposite wall |
| Walls.SetWallPairElsewhere | src/board.cpp:73-115 | every other wall is unchanged |
| Walls.SetWallPairSymmetric | src/board.cpp:73-115 | setting a pair keeps two-sided walls two-sided |
| Walls.SetWallPairBorders | src/board.cpp:173-188 | opening an interior pair keeps the border walled |
| Walls.SetWallPairGrows | src/board.cpp:73-115 | setting a pair only adds walls, clearing one only removes them |
| Walls.GrowsTransitive | src/board.cpp:62-129 | walls added in turn stay added |
| Maze.Reverse | src/board.cpp:133-192 | a path read backwards |
| Maze.PassageRight | src/board.cpp:137-139 | an open right wall is a passage both ways |
| Maze.PassageDown | src/board.cpp:140-142 | an open down wall is a passage both ways |
| Maze.WalkReverse | src/board.cpp:133-192 | a walk through open walls can be walked backwards |
| Maze.WalkGlue | src/board.cpp:133-192 | two walks meeting at a cell make one walk |
| Maze.WalkWider | src/board.cpp:157-192 | a walk stays a walk when walls are removed |
| Maze.SingletonsWitnessed | src/union-find.hpp:7 | fresh singleton classes are each reached by the empty walk |
| Maze.JoinWitnessed | src/board.cpp:137-142 | joining two classes across an open passage keeps every cell walkable to its class's representative |
| Maze.WitnessedWider | src/board.cpp:173-188 | removing walls keeps every class walkable |
| Maze.LinkedGrid | src/board.cpp:157-192 | when every cell is in its right and down neighbours' classes, every cell is in the class of cell 0 |
| Maze.CoarserTransitive | src/union-find.hpp:15-20 | classes that only merge keep merging |
| Maze.RelabelCoarser | src/union-find.hpp:15-20 | a join only merges classes |
| Maze.LinkedKept | src/board.cpp:157-192 | a cell linked to its neighbours stays linked as classes merge |
| Maze.AllReach | src/board.cpp:131-192 | one class everywhere, walkable, means every cell reaches every other through open walls |
| NexxtMap.ExtractFooter | tools/nexxt.rb:129-142 | any body other than 1020 bytes followed by the 4-byte little-endian width/height footer decodes back to that width, height and body (the footer is popped off) |
| NexxtMap.ExtractDimensionsFails | tools/nexxt.rb:129-142 | extract_dimensions raises exactly when the input is not 1024 bytes and has fewer than 4 bytes to pop; a 1024-byte nametable keeps all its bytes, any other input loses the 4 footer bytes |
| NexxtMap.OrganizeInTiles | tools/nexxt.rb:144-150 | the tile grid has `height` rows of `width` cells each |
| NexxtMap.TilesRowMajor | tools/nexxt.rb:144-150 | read row after row, the tile grid gives back exactly the first width * height bytes whenever there are that many |
| NexxtMap.ExtractAttribute | tools/nexxt.rb:152-157 | a numeric attribute is always a 2-bit value 0..3 |
| NexxtMap.ExtractAttributeField | tools/nexxt.rb:152-157 | for a present attribute byte, the result is the byte at (row / 2) * (width / 4) + column / 2 shifted right by 4 on odd rows and by 2 on odd columns, masked to 2 bits |
| NexxtMap.QuadrantFieldShift | tools/nexxt.rb:154-156 | the two conditional shifts followed by the mask select the quadrant's 2-bit field, for every byte and quadrant |
| NexxtMap.ExtractAttributePresent | tools/nexxt.rb:152-157 | the attribute is the `nil & 3` value (no number, no error) exactly when the byte index is past the attribute table on an even row and even column |
| NexxtMap.MetatileRowsOk | tools/nexxt.rb:172-182 | organizing the metatiles succeeds exactly when every (meta row, meta column) metatile can be built |
| NexxtMap.OrganizeInMetatilesSpec | tools/nexxt.rb:159-182 | the flattened result has (height / 2) * (width / 2) metatiles, and the one at meta_row * (width / 2) + meta_column holds the 2x2 tiles at rows 2r, 2r+1 and columns 2c, 2c+1 with that quadrant's attribute |
| NexxtMap.MetatilePresent | tools/nexxt.rb:152-179 | a metatile whose attribute byte exists is built with a numeric attribute |
| NexxtMap.AllMetatilesOk | tools/nexxt.rb:172-182 | when the attribute table covers every metatile, organizing never raises |
| NexxtMap.AllAttributesPresent | tools/nexxt.rb:114-121 | with a covering attribute table, every one of the (height / 2) * (width / 2) metatiles carries a numeric attribute |
| NexxtMap.NametableLayout | tools/nexxt.rb:114-121 | a 1024-byte nametable is read as 32x30 tiles whose attributes are bytes 960..1023, giving 240 metatiles all with numeric attributes |
| NexxtSession.IndexOf | tools/nexxt.rb:11 | the split position is the first occurrence of the separator, or the end when there is none |
| NexxtSession.Lines | tools/nexxt.rb:10 | no line produced by `lines(chomp: true)` contains a newline |
| NexxtSession.UnterminatedLineKept | tools/nexxt.rb:10 | a last line without newline is kept whole, and a "\r\n" separator is removed along with the line break |
| NexxtSession.Entries | tools/nexxt.rb:11 | each entry's key is the text before the first `=`, so it contains none |
| NexxtSession.FlatTable | tools/nexxt.rb:11 | the flat table built by `to_h` never has a key twice |
| NexxtSession.UnterminatedEntry | tools/nexxt.rb:10-11 | a single `key=value` line without newline gives the table with just that pair |
| NexxtSession.UnterminatedReturnRejected | tools/nexxt.rb:10-75 | a CHR line ending in a lone '\r' keeps the '\r' in its value, and decoding that value raises |
| NexxtSession.TrailingReturnRejected | tools/nexxt.rb:59-75 | any literal byte followed by a '\r' fails to decode |
| NexxtSession.Pieces | tools/nexxt.rb:55 | the split of a non-empty key has at least one piece |
| NexxtSession.RemoveUnderscores | tools/nexxt.rb:55 | the `gsub(/_/, '')` result has no underscore |
| NexxtSession.DecomposeKey | tools/nexxt.rb:54-56 | no segment of a decomposed key contains an underscore |
| NexxtSession.PiecesConcat | tools/nexxt.rb:55 | the pieces of a key concatenate back to the key and none is empty |
| NexxtSession.PiecesBoundaries | tools/nexxt.rb:55 | the pieces end exactly at the split points: after a non-[A-Z0-9] character before an [A-Z0-9] one, or after a "CHR" |
| NexxtSession.DecomposeKeySpec | tools/nexxt.rb:54-56 | a key decomposes into the underscore-free versions of non-empty pieces that concatenate to the key and whose boundaries are exactly the split points |
| NexxtSession.SegmentsAreNotRoot | tools/nexxt.rb:40-56 | no segment can be `_root`, since segments carry no underscore |
| NexxtSession.DecomposeKeyChrExamples | tools/nexxt.rb:54-56 | "CHRMain" splits as CHR / Main through the lookbehind on CHR, and "ChrMain" as Chr / Main |
| NexxtSession.DecomposeKeyGridExample | tools/nexxt.rb:54-56 | "VarSpriteGridX" splits into Var / Sprite / Grid / X, the path dug for the metasprite grid |
| NexxtSession.ReduceThenStore | tools/nexxt.rb:39-49 | the `reduce` that creates or demotes the intermediate tables followed by the assignment through `dig` is the single descent that stores the value at the path |
| NexxtSession.StoreEntry | tools/nexxt.rb:38-49 | storing one entry inserts the value at the decomposed key path |
| NexxtSession.ParseTable | tools/nexxt.rb:35-52 | the parsed table is the entries inserted one by one, in order |
| NexxtSession.ParseDemotionExample | tools/nexxt.rb:40 | "Foo=1" then "FooBar=2" turns Foo's string into the `_root` of a new Foo table holding Bar |
| NexxtSession.DigInsert | tools/nexxt.rb:39-49 | after storing a value at a path, digging that path gives the value |
| NexxtSession.InsertDemotes | tools/nexxt.rb:40 | a string stored at a proper prefix of the path is kept under that prefix's `_root` |
| NexxtSession.InsertOverwrites | tools/nexxt.rb:43-48 | digging past a just-stored string raises a TypeError |
| NexxtSession.DigThroughLeaf | tools/nexxt.rb:44-46 | digging any further past a string raises a TypeError |
| NexxtSession.InsertFrame | tools/nexxt.rb:39-49 | storing at a path leaves every other top-level key unchanged |
| NexxtSession.HexDigit | tools/nexxt.rb:64-70 | a lower-case hexadecimal digit has value below 16 |
| NexxtSession.HexRun | tools/nexxt.rb:64 | the run of hexadecimal characters is maximal: all before it are hex, the one after is not |
| NexxtSession.NextToken | tools/nexxt.rb:64 | a matched token consumes at least one and at most all characters |
| NexxtSession.RestOfLine | tools/nexxt.rb:64-72 | the `.*` rest never holds a newline and is no longer than the input |
| NexxtSession.Repeat | tools/nexxt.rb:68 | `[v] * n` has n copies of v |
| NexxtSession.DecodeHex | tools/nexxt.rb:59-75 | the loop computes the token-by-token decoding; nil and empty strings give nil |
| NexxtSession.DecodeLength | tools/nexxt.rb:59-75 | a decodable string lexes completely, and the output grows by one per literal and by n - 1 per `[n]` run |
| NexxtSession.DecodeExtends | tools/nexxt.rb:62-73 | decoding only appends to the values so far |
| NexxtSession.DecodeRunExample | tools/nexxt.rb:67-68 | "0102[3]" decodes to 1, 2, 2, 2: the run repeats the last value count - 1 more times |
| NexxtSession.DecodeLeadingRunExample | tools/nexxt.rb:68 | a run with no previous value repeats 0 |
| NexxtSession.DecodeErrorExamples | tools/nexxt.rb:65-68 | "[0]" raises on the negative repeat, and a non-hex or unterminated token raises "Invalid string" |
| NexxtSession.HexValueToHex | tools/nexxt.rb:68 | `to_i(16)` of the hexadecimal spelling of a count gives the count back |
| NexxtSession.EncodeHex | tools/nexxt.rb:59-75 | the reference encoder (literal bytes with `[n]` runs) never writes a newline |
| NexxtSession.DecodeLiteralStep | tools/nexxt.rb:69-70 | a two-digit literal appends its byte and decoding continues on the rest |
| NexxtSession.DecodeRunStep | tools/nexxt.rb:67-68 | a `[k]` run appends k - 1 copies of the last value and decoding continues on the rest |
| NexxtSession.DecodeEncode | tools/nexxt.rb:59-75 | decoding the encoding of any byte sequence appends exactly that sequence |
| NexxtSession.DecodeHexRoundTrip | tools/nexxt.rb:59-75 | decode_hex of the encoding of any non-empty byte sequence gives it back |
| NexxtSession.NamedIndices | tools/nexxt.rb:77-81 | selecting can only drop entries |
| NexxtSession.NamedIndicesSpec | tools/nexxt.rb:77-81 | a (name, index) pair is selected exactly when some field holds the string name under a key containing a digit whose `to_i` is the index |
| NexxtSession.At | tools/nexxt.rb:96 | Ruby array indexing finds an element exactly for indices in -size..size-1 |
| NexxtSession.NameMetasprites | tools/nexxt.rb:95-97 | one metasprite per name, carrying the slot at the name's index (nil when out of range) |
| NexxtSession.SlotSpritesOk | tools/nexxt.rb:87-93 | a slot decodes exactly when its length is a multiple of 4, and otherwise raises "Invalid bytes" |
| NexxtSession.SlotsOk | tools/nexxt.rb:84-94 | the sprite bytes decode exactly when their length is a multiple of 4, into ceil(size / 256) slots |
| NexxtSession.MakeMetaspritesSpec | tools/nexxt.rb:83-98 | nil bytes raise; otherwise the result is ok exactly when the byte count is a multiple of 4, and each name gets its slot's sprites, nil exactly when the index is past the last slot |
| NexxtSession.SlotPadding | tools/nexxt.rb:88 | $ff padding rows are all rejected as empty sprites |
| NexxtSession.SlotSpritesRow | tools/nexxt.rb:89-92 | a non-sentinel row y, tile, attribute, x becomes a sprite at (x - offset x, y - offset y) |
| NexxtSession.SlotRoundTrip | tools/nexxt.rb:87-93 | storing storable sprites as rows followed by padding decodes back to exactly those sprites |
| NexxtSession.GridOffsetDefaults | tools/nexxt.rb:16-21 | a grid table gives an offset exactly when neither X nor Y is itself a table, and a missing X or Y reads as 0, like `nil.to_i` |
| NexxtSession.NewSessionNeeds | tools/nexxt.rb:8-27 | a session is built only when the file has a sprite grid, a Meta Sprite table and decodable, present Meta Sprites bytes |
| NexxtSession.SessionOfNeeds | tools/nexxt.rb:13-26 | building the session fields from a table succeeds only with a grid, a metasprite name table and metasprite bytes |
| NexxtSession.Initialize | tools/nexxt.rb:8-27 | the constructor computes the session specified from the flat table, parsed table and decoded fields |
| Player.UpkeepClosedForm | src/player.cpp:26-37 | the upkeep loop takes one unit of energy per 240 timer steps and keeps the remainder; once energy reaches 0 it stops after one more period |
| Player.UpkeepOneFrame | src/player.cpp:26-41 | the per-frame upkeep advances the timer modulo 240 and takes one energy, if any is left, exactly when the timer wraps |
| Player.IdleChoice | src/player.cpp:75-120 | the move chosen is requested and allowed, and every direction tried before it (up, down, left, right) is not |
| Player.AllowedMeansFreeNeighbour | src/player.cpp:78-119 | a direction is allowed exactly when the cell has no wall on that side and the neighbour is on the board and not occupied |
| Player.Unsigned | src/fixed-point.hpp:5-12 | the 16 bits of a coordinate read as unsigned are the value modulo 2^16 |
| Player.GridCell | src/player.cpp:69-71 | the cell the player stands on is the unsigned position divided by 16 pixels, below 16 |
| Player.SignedCellPastColumnSeven | src/player.cpp:69-114 | a right move from column 7 reaches 128 pixels, which the signed `whole >> 4` reads as column -8 while the unsigned reading gives 8 |
| Player.StuckAtNegativeColumn | src/player.cpp:69-119 | at signed column -8 no direction is ever allowed, whatever is pressed and whatever the walls |
| Player.UnsignedAdd | src/fixed-point.hpp:18-20 | fixed-point addition is addition modulo 2^16 on the unsigned reading |
| Player.UnsignedSub | src/fixed-point.hpp:5-30 | fixed-point subtraction is subtraction modulo 2^16 on the unsigned reading |
| Player.AllowedTargetOnBoard | src/player.cpp:78-119 | an allowed move from a cell of the board targets a cell of the board |
| Player.DigitByAdding | src/player.cpp:326-378 | each of the first three digits of int_to_text adds 8, 4, 2 and 1 to the zero tile while that multiple of the place fits, which below ten places is the digit's tile and leaves the remainder |
| Player.IntToText | src/player.cpp:324-389 | for scores up to 9999 the four tiles are the decimal digits, with leading zeros darkened, and nothing past the four tiles changes |
| Player.DigitTilesOfValue | src/player.cpp:326-380 | the digits peeled off by the three places and the last remainder are the four decimal digits of the value |
| Player.U8ToText | src/player.cpp:391-416 | for values below 100 the two tiles are the decimal digits with a leading zero darkened, and nothing past them changes |
| Player.Player.constructor | src/player.cpp:18-22 | a new player faces and moves right, idle at the start position with the starting energy, zero timer, score and lines |
| Player.Player.EnergyUpkeep | src/player.cpp:26-37 | after adding delta to the 16-bit timer, energy and timer are what the upkeep loop leaves |
| Player.Player.Feed | src/player.cpp:231-240 | feeding resets the timer and raises energy by the nutrition, capped at 12 |
| Player.Player.CheckIdle | src/player.cpp:64-121 | the buffered press stands in for an empty press and is used up; in the player's mode the first requested and allowed direction starts a one-cell move, otherwise the player stops; the position does not change |
| Player.Player.ChooseMove | src/player.cpp:75-120 | the chosen direction, facing and one-cell target are those of the first requested and allowed move, or the player stays idle |
| Player.Player.Start | src/player.cpp:81-116 | a move sets the direction, the Moving state and the target one cell away |
| Player.Player.Glide | src/player.cpp:129-175 | the player arrives exactly when within one speed step of the target and then stands on it; otherwise it moves one speed step toward it |
| Player.Player.StorePress | src/player.cpp:123-128 | a fresh press is stored, and an empty held sample takes the stored press |
| Player.Player.Arrive | src/player.cpp:133-137 | on arrival the player stops unless a direction is held and goes through check_idle without moving |
| Player.Player.MovingStep | src/player.cpp:122-179 | until arrival the player glides one step with the press stored; on arrival it stands on the target and goes through check_idle |
| Player.Player.FrameUpkeep | src/player.cpp:41 | the frame's upkeep advances the timer modulo 240 and takes one energy when it wraps |
| Player.Player.Step | src/player.cpp:62-180 | an idle player goes through check_idle and a moving one through the Moving case |
| Player.Player.Update | src/player.cpp:40-181 | one frame: energy upkeep, the pad chosen by the controller scheme and input mode, then the idle or moving step's outcome |
| Player.Player.RefreshScoreHud | src/player.cpp:420-436 | the maze's high score becomes the larger of itself and the score, other mazes keep theirs, and the three texts are the score, high score and lines tiles |
| Polyomino.MaxDeltaRow | src/polyomino.cpp:50-54 | the largest row delta, at least 0, among the first n blocks |
| Polyomino.SpawnRow | src/polyomino.cpp:43-55 | the spawn row puts every block of the piece above the board |
| Polyomino.HighestDelta | src/polyomino.cpp:50-54 | the loop over the five deltas computes the largest row delta, at least 0 |
| Polyomino.SpawnNeverCollides | src/polyomino.cpp:38-56 | a freshly spawned piece at column 5 never collides |
| Polyomino.MinDeltaRow | src/polyomino.cpp:219-225 | the smallest row delta among the blocks, capped at 2 |
| Polyomino.FreezableMeansInside | src/polyomino.cpp:217-227 | a freezable piece has every block at row 0 or below, and the converse holds when some block's delta is at most 2 |
| Polyomino.FirstKick | src/polyomino.cpp:58-71 | the kick chosen is the first of the five that does not collide; every earlier one collides |
| Polyomino.SidewaysInputBounds | src/polyomino.cpp:88-112 | the move timer stays within 0..16, and a new sideways request is only in a direction whose button is pressed or held |
| Polyomino.FrozenStepOccupy | src/polyomino.cpp:237-247 | freezing a free block inside the board occupies it and keeps the earlier blocks frozen |
| Polyomino.FrozenStepSkip | src/polyomino.cpp:241-242 | a block on an occupied cell or above the board is skipped |
| Polyomino.Polyomino.Shape | src/polyomino.cpp:46 | the current definition is a well-formed piece |
| Polyomino.Polyomino.constructor | src/polyomino.cpp:34-36 | a new piece is inactive with no definition, and the next two are taken from the bag |
| Polyomino.Polyomino.Spawn | src/polyomino.cpp:38-56 | spawning activates the next piece above the board at column 5 with reset timers, shifts the queue and takes a new piece from the bag |
| Polyomino.Polyomino.PlaceAbove | src/polyomino.cpp:50-55 | the row is set to the spawn row of the current shape |
| Polyomino.Polyomino.ShiftQueue | src/polyomino.cpp:46-48 | the next piece becomes current, the second next becomes next, and the bag gives the new second next |
| Polyomino.Polyomino.AbleToKick | src/polyomino.cpp:58-71 | the piece moves by the first non-colliding kick and reports success, or stays put and reports failure |
| Polyomino.Polyomino.Rotate | src/polyomino.cpp:114-134 | a rotation keeps the turned shape moved by its first fitting kick; otherwise the position is kept and the turn undone |
| Polyomino.Polyomino.HandleInput | src/polyomino.cpp:73-135 | an inactive piece hands the input back to the player; in polyomino mode, up forces a drop, the sideways request follows the pad, and without A or B the shape and position stay |
| Polyomino.Polyomino.SidewaysRequest | src/polyomino.cpp:88-112 | the move timer and direction are those of the sideways input rules |
| Polyomino.Polyomino.CanBeFrozen | src/polyomino.cpp:217-227 | the answer is whether the piece can be frozen at its row |
| Polyomino.Polyomino.FreezeBlocks | src/polyomino.cpp:229-259 | the piece goes inactive and every one of its blocks inside the board is occupied, with nothing else changed |
| Polyomino.Polyomino.Lock | src/polyomino.cpp:147-184 | a piece inside the board is frozen and goes inactive; otherwise placing fails and nothing changes |
| Polyomino.Polyomino.Gravity | src/polyomino.cpp:142-162 | when the drop timer runs out the piece falls a row if it can; a grounded piece waits two more drops and then locks |
| Polyomino.Polyomino.Sideways | src/polyomino.cpp:164-191 | a left or right step happens if the piece fits and is consumed either way; a down step falls or locks the piece, the request staying pending after a lock |
| Polyomino.Polyomino.Update | src/polyomino.cpp:137-192 | an inactive piece changes nothing; otherwise the gravity step, then unless it locked, the sideways step; placed and failed never both hold |
| PolyominoDefs.CollideFrom | src/polyomino-defs.cpp:3-12 | the scan from block i finds a collision exactly when one of the remaining blocks lands on an occupied cell |
| PolyominoDefs.Collide | src/polyomino-defs.cpp:3-12 | a piece collides exactly when one of its blocks lands on an occupied or off-board cell |
| PolyominoDefs.CollideIgnoresUnused | src/polyomino-defs.cpp:4 | only the first `size` deltas matter |
| PolyominoDefs.AboveBoardNeverCollides | src/polyomino-defs.cpp:3-12 | blocks above the board within its columns never collide |
| Unicorn.Speed | src/unicorn.cpp:37-43 | the unicorn moves at the default speed exactly while it has energy and at the tired speed exactly when it has none |
| Unicorn.Charge | src/unicorn.cpp:131 | paying for a roll subtracts the cost as a uint8_t: exact when there is enough energy, wrapped past 0 otherwise |
| Unicorn.RollReach | src/unicorn.cpp:133-153 | the roll scan goes on while the next cell is open and stops at three cells or at the first cell it cannot pass |
| Unicorn.RollPathClear | src/unicorn.cpp:133-153 | every cell a roll reaches is on the board and free, and no cell it leaves has a wall toward the roll |
| Unicorn.BorderStopsRoll | src/unicorn.cpp:135-153 | on a bordered board a roll cannot leave the grid: each cell either has a neighbour ahead or a wall toward the roll |
| Unicorn.FreeRollWrapsEnergy | src/unicorn.cpp:126-131 | a roll taken with rolls free and less energy than the cost leaves more energy than before, at least 12 |
| Unicorn.StartCell | src/unicorn.cpp:25 | the constructor's `whole >> 4` stored as a uint8_t is the cell in the first 128 pixels and 248 or more past them |
| Unicorn.StepForwardOnCell | src/unicorn.cpp:197 | a step of one grid size forward from cell k stands on cell k + 1 |
| Unicorn.StepBackOnCell | src/unicorn.cpp:187 | a step of one grid size back from cell k stands on cell k - 1 |
| Unicorn.TargetOnCell | src/unicorn.cpp:164-202 | the target of a move to a neighbour on the board stands on that neighbour's cell |
| Unicorn.ScanRoll | src/unicorn.cpp:133-154 | the scanning loops compute the roll distance and whether the roll ends against a block |
| Unicorn.Unicorn.constructor | src/unicorn.cpp:23-35 | a new unicorn is idle facing and moving right at its start cell with the starting energy, scoring 8420 with the higher-score cheat and 0 otherwise |
| Unicorn.Unicorn.EnergyUpkeep | src/unicorn.cpp:86-99 | the timer advances modulo 240; when it wraps, energy is refilled to 12 with infinite energy and otherwise drops by one if any is left |
| Unicorn.Unicorn.Feed | src/unicorn.cpp:432-441 | feeding resets the timer and raises energy by the nutrition, capped at 12 |
| Unicorn.Unicorn.AddScore | src/unicorn.cpp:443-453 | the score grows by the points, capped at 9999, the stage's high score becomes the larger of itself and the score, and other stages keep theirs |
| Unicorn.Unicorn.StartRoll | src/unicorn.cpp:124-155 | A or B with too little energy and rolls not free changes nothing; otherwise the cost is paid, the state becomes Roll, and the distance and block flag are those of the scan |
| Unicorn.Unicorn.CheckIdle | src/unicorn.cpp:108-204 | a direction press wakes the unicorn, the buffered press stands in for an empty one, then an occupied cell traps it, A or B rolls, or the first requested and allowed move starts |
| Unicorn.Unicorn.Act | src/unicorn.cpp:117-203 | the tests of check_idle: trapped on an occupied cell, otherwise the roll or move outcome |
| Unicorn.Unicorn.ActFree | src/unicorn.cpp:123-203 | on a free cell, A or B starts or refuses a roll and otherwise the first requested and allowed move starts or the unicorn stops |
| Unicorn.Unicorn.ChooseMove | src/unicorn.cpp:158-203 | the chosen direction, facing and one-cell target are those of the first requested and allowed move, or the state is kept |
| Unicorn.Unicorn.Glide | src/unicorn.cpp:212-265 | the unicorn arrives exactly when within one speed step of the target, and then stands on it with its row or column moved by one; otherwise it moves one step toward it |
| Unicorn.Unicorn.StorePress | src/unicorn.cpp:206-211 | a fresh press is stored, and an empty held sample takes the stored press |
| Unicorn.Unicorn.MovingStep | src/unicorn.cpp:205-266 | the press is stored and the unicorn glides toward the target, going through check_idle on arrival |
| Unicorn.Unicorn.GlideStep | src/unicorn.cpp:212-265 | until arrival the unicorn glides one step; on arrival it stops unless a direction is held and goes through check_idle |
| Unicorn.Unicorn.Arrive | src/unicorn.cpp:215-221 | on arrival the unicorn becomes idle, stops unless a direction is held and goes through check_idle |
| Unicorn.Unicorn.RollStep | src/unicorn.cpp:272-293 | a finished roll becomes idle; at an impact check with no distance left the roll becomes an impact, otherwise it advances one cell in the facing direction |
| Unicorn.Unicorn.ActionStep | src/unicorn.cpp:267-353 | the Trapped, Roll and Impact cases step as their outcomes say, and a block hit in the Impact state returns the block animations ImpactQueue picks (none in any other case) |
| Unicorn.Unicorn.ImpactHit | src/unicorn.cpp:298-344 | reading the board's occupancy of the cell beyond the block, the queued animations are ImpactQueue's for the unicorn's cell and facing |
| Unicorn.ImpactQueue | src/unicorn.cpp:298-344 | the block next to the unicorn breaks when the cell two columns ahead is occupied, and otherwise leaves its cell and arrives at that one; break tables face the roll, and the move and arrive tables likewise |
| Unicorn.SlideStaysOnBoard | src/unicorn.cpp:298-344 | a pushed block slides only onto a free cell of the board and from one, because occupied counts cells past the edges as taken |
| Unicorn.Unicorn.Step | src/unicorn.cpp:104-353 | the new state is StepOutcome's: a resting unicorn stays on its cell and goes through check_idle, a moving one through the Moving case, and the others change only what their action step changes; block animations are queued only from the Impact state |
| Unicorn.Unicorn.BusyStep | src/unicorn.cpp:205-353 | the Moving, Trapped, Roll and Impact cases leave the state StepOutcome gives and queue only the block hit's animations |
| Unicorn.Unicorn.Update | src/unicorn.cpp:101-354 | one frame: the timer advances modulo the upkeep period, then the state is StepOutcome's for the state it started in with the upkept energy, and the block animations a hit queues are returned |
| UnionFind.Root | src/union-find.hpp:8-14 | following parents from x ends at an element that is its own parent, x itself when x is a root |
| UnionFind.RootAfterLink | src/union-find.hpp:15-20 | after linking root y under root x, every element whose root was y has root x and all others keep theirs |
| UnionFind.RootsAfterLink | src/union-find.hpp:15-20 | the representatives after a link are the old ones with y's class relabelled as x |
| UnionFind.LinkKeepsRanked | src/union-find.hpp:19 | linking one root under another keeps the parent links acyclic |
| UnionFind.DisjointSet.constructor | src/union-find.hpp:7 | every new element is its own parent and representative |
| UnionFind.DisjointSet.Representative | src/union-find.hpp:8-14 | the loop returns the root of x's class |
| UnionFind.DisjointSet.Join | src/union-find.hpp:15-20 | joining two elements of one class changes nothing; otherwise the root of b's class is linked under the root of a's, and the classes are the old ones with b's merged into a's |
| UnionFind.DisjointSet.Link | src/union-find.hpp:19 | one parent pointer changes, from y to x, and the structure stays valid |
| WorldMap.Availability | src/world-map.cpp:68-90 | in story mode the first four stages are open exactly when not yet completed and the last one exactly when all four are; in the other modes the first four are open and the last one exactly when it was beaten in story mode |
| WorldMap.SomeStageAvailable | src/world-map.cpp:68-90 | in every mode and for every completion table at least one stage is open |
| WorldMap.ComputeAvailability | src/world-map.cpp:68-90 | the loops fill the available-stages array with the availability table |
| WorldMap.FirstFrom | src/world-map.cpp:102-107 | the first open stage from a position on, or none when every later stage is closed |
| WorldMap.NearestBelow | src/world-map.cpp:248-255 | the nearest open stage below a position, or none when all below are closed |
| WorldMap.StartingStage | src/world-map.cpp:101-117 | the starting stage is open whenever any is, is the current one when that is open, and is otherwise the first open stage at or after it when there is one |
| WorldMap.FixStage | src/world-map.cpp:101-117 | the two loops compute the starting stage |
| WorldMap.PreviousStage | src/world-map.cpp:246-255 | up or left picks the nearest open stage below, or keeps the current one |
| WorldMap.NextStage | src/world-map.cpp:259-268 | down, right or select picks the first open stage above, or keeps the current one |
| WorldMap.MovesStayAvailable | src/world-map.cpp:245-270 | from an open stage, navigation only ever lands on open stages, moving down or up as pressed |
| WorldMap.NextEndingFrame | src/world-map.cpp:160-165 | the ending counter stays below 96, counting up and wrapping to 0 from 95 |
| WorldMap.EndingCycle | src/world-map.cpp:160-165 | after k ticks from 0 the ending counter is k modulo 96 |
| WorldMap.WorldMap.constructor | src/world-map.cpp:57-143 | the available stages follow the mode and completion table, the story mode counts as beaten only in story mode with the last stage completed, the current stage is fixed up unless it is beaten, and the intro shows in an unbeaten story mode |
| WorldMap.WorldMap.StageChange | src/world-map.cpp:150-158 | the new stage becomes current, with the abort sound when it is the same stage and the cycle sound otherwise |
| WorldMap.WorldMap.TickEnding | src/world-map.cpp:160-165 | the ending counter advances with the wrap at 96 and nothing else changes |
| WorldMap.WorldMap.LoopStep | src/world-map.cpp:218-276 | A or Start closes the intro, or goes to the ending and title screen once story mode is beaten, or starts gameplay (the maze generation that follows is `Board.Board.GenerateMaze`, not called here); outside story mode it always starts gameplay; B returns to the title screen; the direction buttons navigate the open stages while the story is not beaten; any other press, or a direction once the story is beaten, changes neither the state nor the stage; only a confirm clears the intro, and the availability and ending counter stay |
| Ruby.GetPut | tools/nexxt.rb:11 | after storing a key, looking it up gives the new value and every other key keeps its value |
| Ruby.PutPut | tools/nexxt.rb:11 | storing a key twice keeps only the second value |
| Ruby.GetIn | tools/nexxt.rb:11 | a lookup finds a value exactly for the keys present |
| Ruby.PutKeys | tools/nexxt.rb:11 | storing a new key appends it to the key order, and storing an existing one keeps the order |
| Ruby.PutUnique | tools/nexxt.rb:11 | storing keeps the keys unique |
| Ruby.ToH | tools/nexxt.rb:11 | `to_h` builds a table whose keys are unique |
| Ruby.ToHLastWins | tools/nexxt.rb:11 | for a repeated key `to_h` keeps the last pair's value |
| Ruby.ToHAbsent | tools/nexxt.rb:11 | a key in no pair is absent from the table |
| Ruby.ToIDecimal | tools/nexxt.rb:18-19 | `to_i` reads back the decimal spelling of every integer |
| Ruby.ToIRadixPrefix | tools/nexxt.rb:18-19 | `to_i` skips a "0d" or "0D" prefix before the digits |
| Ruby.ToINonNumeric | tools/nexxt.rb:18-19 | `to_i` of a string starting with neither a digit, a sign nor a space is 0 |
| Input.Or | src/player.cpp:127 | merging two button sets is empty exactly when both are |

## Left out

- The `tools/donut.c` command-line program and its file helpers (tools/donut.c:539-901): argument parsing, file and stdin reading, overwrite prompts and compression statistics. All of it is I/O.
- The don't-care mask helpers of `tools/donut.c` (tools/donut.c:289-336). The usage text calls the mask defunct, and `donut_compress` always passes a null mask, so the modelled encoder and cost function take no mask.
- The `File.read` wrappers of `tools/nexxt.rb` (tools/nexxt.rb:29-33 and 123-127). The readers start from the file's text or bytes.
- Rendering, VRAM, OAM, palettes and sound: every `render`, HUD and sprite function, the VRAM writes in `Attributes::update_vram`, the tile tables of `block_maze_cell`/`restore_maze_cell`, the ending cut-scene drawing, and the PPU calls of the world map. The attribute dirty-byte flush is kept as a log of queued bytes; every other hardware call is a no-op.
- `Board::ongoing_line_clearing` (src/board.cpp:519-595), a coroutine resumed across frames through resume labels. Its row clearing is not modelled: the marking of filled rows in `deleted`, the `free` of every cleared cell through `restore_maze_cell` (src/board.cpp:509), and the downward shift of occupancy through `occupy` (src/board.cpp:559-592). `Board.Board.Occupy`, `Free` and `RowFilled` model the operations it is built from.
- The `refresh_energy_hud` coroutines (src/unicorn.cpp:466-487, src/player.cpp:287). They sequence HUD drawing across frames; their only state change is the HUD's copy of the last energy shown.
- Fruits (`src/fruits.cpp`). They use fields and constants the shown `src/fruits.hpp` does not declare, and they mix spawning with drawing.
- Board tally and the `filled_lines` count of `freeze_blocks`. `Board::tally` is not declared in the shown board header or body; only the occupancy part of `freeze_blocks` is modelled.
- The lambda constructors of `Bag` (src/polyomino.cpp:16-32 and src/board.cpp:145). `bag.hpp` has no such constructor. The maze bag is modelled as an empty bag filled with 0..n-1 (`Board.FillBag`), and the piece bag is a parameter.
- The maze template's `value`/`walls` fields, read in `src/board.cpp`. `src/maze-defs.hpp` declares its template cells with a different layout, so the model takes the template as a sequence of cells, one per board index.
- Random draws (`rand8`, `rand16`). They are method parameters with range preconditions.
- Pads, the animation flags that update reads (a finished animation, `roll__check_impact`, `impact__block_hit`) and the cheat flags `infinite_energy` and `higher_score`. They arrive as parameters. The board queue that `add_animation` fills is not shown (src/board.hpp declares it only), so the animations an impact queues are returned to the caller instead.
- `NUM_STAGES`, fixed at 5 (`Stages.NumStages`). The world map lists five stage labels and no other count is shown.
- Charset: `TranslateUnicode` and `TileString` follow the release build. There an unmapped character gives 0xff instead of stopping at the debug build's assertion.
- Utils.RandUpTo: requires n > 0, because `rand_up_to(0)` never terminates (src/utils.cpp:101-107) and a Dafny method must.
- `+=` and `-=` of the fixed-point type: they rebind the left side to the result of `+` and `-`, so `FixedPoint.Add` and `FixedPoint.Sub` cover them.
- 8-bit and 16-bit widths are written out where the source relies on them: `u8`/`s8`/`u16`/`s16` subset types in `Common`, with explicit wrap-around in `FixedPoint`, `Unicorn.Charge` and the `Advance` index counters. Elsewhere values are shown to stay in range.
- WorldMap.WorldMap.LoopStep: a confirm that starts gameplay sets the game state only. The `board.generate_maze()` call made on entering gameplay (src/world-map.cpp:241) is `Board.Board.GenerateMaze`, which needs the maze template and its random draws, so the world map does not call it.
- WorldMap.WorldMap.LoopStep: a confirm after story mode is beaten goes straight to the title screen. The ending cut-scene it plays first is drawing and waiting for a press, so its ticks of the ending counter are not part of the step (`TickEnding` models one tick).
- Foreign code: the 6502 decompressor, the sound engine, bank switching and debug logging.

## Findings

| source | as written | input that shows it | evidently intended | confidence | as-written member | corrected member |
|---|---|---|---|---|---|---|
| tools/donut.c:338-351 | `all_pb8_planes_match` accepts the single-plane modes whenever the basic block's bytes repeat with the plane period, even if the pb8 packets of the planes differ | mode 0x00 with two coded planes whose packets are 80 01 and e0 80 01 e0: the payload 80 01 e0 80 01 e0 repeats with period 3, so the single-plane block 06 c0 80 01 e0 is written, and the decoder reads it as 4 bytes that restore no source | use the single-plane mode only when every coded plane packs to the same packet | not executed | DonutPack.Pb8PlanesMatch, DonutPack.SharedCheckAcceptsUnequalPackets | DonutPack.PacketsShared, DonutPack.PackBlock |
| src/fixed-point.hpp:57-71 | `round` on a negative value with frac >= 0x80 returns whole - 1, two steps below the nearest integer | -0.25 (value -64): whole is -1 and frac is 0xc0, so round gives -2 instead of 0 | round to the nearest integer | not executed | FixedPoint.Round, FixedPoint.RoundNegativeQuarter | FixedPoint.RoundNearest, FixedPoint.RoundAgainstNearest |
| src/player.cpp:69-71 | `check_idle` takes the grid cell as `whole >> 4` of a signed byte, which is negative from 128 pixels on | x = 128 pixels: the column reads as -8 and the player cannot move from there | the unsigned column `whole / 16`, 8 for 128 pixels | not executed | Player.SignedCellPastColumnSeven, Player.StuckAtNegativeColumn | Player.GridCell, Player.Player.CheckIdle |

# Minesweeper board engine in Dafny

This project models the game engine of a Swing Minesweeper. Two Java classes
make up the engine:

- `Board` holds the grid of cells, places the mines at random, dispatches
  mouse clicks, checks for a win, latches game over and resets the board.
- `Cell` holds a cell's state machine (Default, Revealed, Flagged,
  Possible), its mine flag and its neighbour list. It counts the mines
  around the cell, reveals recursively, chords, and gives the chord verdict
  on a revealed cell.

In the model, one class `Board.Board` holds everything the Java cells and
board hold:

- three flat arrays indexed `r * w + c`: `state`, `mine` and `links`, the
  neighbour lists;
- the two counters the Java code keeps in static fields, `numRevealed` and
  `flagsRemaining`;
- the `gameOver` latch.

Each Cell operation becomes a Board method that takes the cell index.

The modules follow the program's structure:

- `Grid`: the row-major layout and the neighbour lists, in the exact order
  the constructor's four nested loops build them.
- `Cell`: the state and verdict enumerations, the flag cycle, counting over
  a neighbour list, and the chord verdict as a reference function.
- `FloodFill`: the reveal/chord mutual recursion as two total functions
  (`RevealCells`, `ChordCells`), plus a relational description of a flood
  (`Flood`). It proves that the recursion satisfies the relation and that
  the relation fixes the result whatever the recursion order.
- `Board`: the class with its invariant `Valid` and the methods below. The
  invariant says:
  - exactly `numMines` mines;
  - `numRevealed` is the number of Revealed cells;
  - `flagsRemaining` is `numMines` less the number of Flagged cells.

  The module also holds lemmas about mine placement, the win check and what
  a click may reveal.

These loops of the source are loops here, each proved against a
specification function:

- the neighbour linking loops;
- the `armMines` draw loop;
- the `reset` loop;
- the chord-status scan, including its early `break`;
- the chord loop, with `reveal` and `chord` mutually recursive methods.

The counting loop of `getAdjacentMines` changes nothing but a local
counter, so it is the function `Cell.AdjacentMines`. The icon loop of
`endGame` is presentation and is left out.

A random draw in `armMines` is an arbitrary choice (`:|`) among the
eligible cells. A draw the Java loop rejects changes nothing, so it is not
modelled.

A point where the code behaves differently from what it appears to intend:

- **First-click relocation.** The comment in `update` says the mine is
  moved when the first click hits it. The code clears the clicked mine
  first, then draws a new mine from every cell that is neither a mine nor
  revealed, and that includes the clicked cell. The new mine can therefore
  land back on the clicked cell, which is then revealed as a mine without
  ending the game. The click handler (`Board.Board.Update`,
  `Board.Board.LeftClick`) models the code as written, through
  `Board.Board.FirstClickAsWritten`. `Board.Board.FirstClick` is the
  corrected relocation, with the first-click safety proved about it (see
  "## Findings").

How the chord verdict behaves, as the code is written: the chord scan stops
counting flags at the first unflagged mine, so its early `break` decides the
verdict itself, not only which cell is highlighted. It can do so in either
direction, compared with a scan that counts every flag
(`Cell.ChordStatusWithoutBreak`):

- An unflagged mine listed before a flagged safe cell gives NotEnoughFlags,
  where the full count would give NeighbourIsMine
  (`Cell.BreakChangesVerdict`, on a 1 x 3 board).
- A flagged safe cell, then an unflagged mine, then another flagged safe
  cell, around one mine, gives NeighbourIsMine, a loss, where the full count
  would give NotEnoughFlags and nothing would happen
  (`Cell.BreakCausesLoss`, on a 2 x 2 board).
- The verdict therefore depends on where the mine lies in the neighbour
  list (`Cell.ChordStatusDependsOnOrder`).
- When there is no unflagged mine, the two scans agree
  (`Cell.BreakUnseenWithoutUnflaggedMine`).

These witnesses use the neighbour lists the constructor actually builds:
`Grid.MiddleNeighbours` and `Grid.CornerNeighbours` prove those lists.

In the source, `num_revealed` is a static field initialised once per
process. The model keeps it as a board field, and the constructor starts
it at 0. This matches a process that builds one board.

Mouse button 1 is a left click and button 3 a right click. Any other button
only triggers the win check. After a chord loss there is no early `return`,
so the win check still runs. After a tripped mine the handler returns
before the win check. `Update` states both.

## Model

| member | source | states |
|---|---|---|
| Grid.Neighbours | src/com/vandeldt/minesweeper/Board.java:66-78 | a cell's neighbour list has at most 8 entries, each a cell of the board |
| Grid.NeighboursExactly | src/com/vandeldt/minesweeper/Board.java:68-74 | q is in p's neighbour list iff q is a different cell of the board whose row and column each differ from p's by at most one |
| Grid.NeighboursIncreasing | src/com/vandeldt/minesweeper/Board.java:68-74 | the neighbour list is strictly increasing in cell index (the loops visit offsets in row-major order), so no neighbour is listed twice |
| Grid.NeighboursSymmetric | src/com/vandeldt/minesweeper/Board.java:66-78 | the neighbour relation is symmetric and irreflexive |
| Grid.IncreasingUnique | src/com/vandeldt/minesweeper/Board.java:68-74 | two strictly increasing lists with the same members are equal, so an increasing neighbour list is fixed by the adjacency relation |
| Grid.NeighboursByMembers | src/com/vandeldt/minesweeper/Board.java:66-78 | a cell's neighbour list is the increasing list of exactly the cells adjacent to it |
| Grid.MiddleAdjacent | src/com/vandeldt/minesweeper/Board.java:68-74 | on a 1 x 3 board the cells adjacent to the middle cell are exactly cells 0 and 2 |
| Grid.CornerAdjacent | src/com/vandeldt/minesweeper/Board.java:68-74 | on a 2 x 2 board the cells adjacent to the top-left cell are exactly cells 1, 2 and 3 |
| Grid.MiddleNeighbours | src/com/vandeldt/minesweeper/Board.java:66-78 | the neighbour list of the middle cell of a 1 x 3 board is [0, 2] |
| Grid.CornerNeighbours | src/com/vandeldt/minesweeper/Board.java:66-78 | the neighbour list of the top-left cell of a 2 x 2 board is [1, 2, 3] |
| Board.Board.constructor | src/com/vandeldt/minesweeper/Board.java:21-83 | given h > 0, w > 0 and 1 <= mines < h*w (the menu's validation), it builds a board that satisfies the invariant, with every cell Default, every cell linked to its neighbours, exactly `mines` mines, no cell revealed, all flags remaining and the game not over |
| Board.Board.LinkAll | src/com/vandeldt/minesweeper/Board.java:66-78 | starting from empty lists, every cell p ends with links[p] equal to its neighbour list |
| Board.Board.LinkCell | src/com/vandeldt/minesweeper/Board.java:68-76 | the offset loops for cell (i, j) append exactly its neighbour list to links[i*w+j] and change no other list |
| Board.Board.LinkOffset | src/com/vandeldt/minesweeper/Board.java:71-73 | one pass of the innermost loop appends the offset's cell to the list of cell k exactly when the offset is not (0, 0) and lands on the board, and changes no other list |
| Board.Board.AddNeighbour | src/com/vandeldt/minesweeper/Cell.java:157-159 | appends one cell to the end of one neighbour list and changes no other list |
| Board.Board.SetMine | src/com/vandeldt/minesweeper/Cell.java:180-182 | sets one cell's mine flag and no other |
| Board.Board.SetState | src/com/vandeldt/minesweeper/Cell.java:165-167 | sets one cell's state and no other |
| Board.Board.ArmMines | src/com/vandeldt/minesweeper/Board.java:152-168 | given at least k eligible cells, it adds exactly k mines; every old mine stays a mine, every new mine is on a cell that is not Revealed, and no state changes |
| Board.Eligible | src/com/vandeldt/minesweeper/Board.java:162 | the cells the draw accepts; there is none exactly when every cell is a mine or revealed, the case in which the draw loop never ends |
| Board.EligibleCount | src/com/vandeldt/minesweeper/Board.java:162 | while no cell is revealed, the cells the draw accepts number exactly the cells without a mine |
| Board.PlaceMine | src/com/vandeldt/minesweeper/Board.java:162-164 | accepting a draw adds one mine and removes exactly that cell from the eligible ones |
| Board.EmptyBoard | src/com/vandeldt/minesweeper/Board.java:28-30 | a board of Default cells without mines has no mine, no revealed or flagged cell, and every cell is eligible |
| Board.Board.Reset | src/com/vandeldt/minesweeper/Board.java:171-190 | afterwards every cell is Default, exactly numMines cells are mines (the invariant), numRevealed is 0, flagsRemaining is numMines and the game is not over |
| Board.Board.EndGame | src/com/vandeldt/minesweeper/Board.java:193-195 | sets the game-over latch and changes nothing else |
| Cell.NextFlag | src/com/vandeldt/minesweeper/Cell.java:41-67 | a right click changes every state except Revealed, and never turns a cell into or out of Revealed |
| Cell.FlagDelta | src/com/vandeldt/minesweeper/Cell.java:50-59 | the change to flags remaining is one for leaving Flagged less one for entering it |
| Cell.FlagCycle | src/com/vandeldt/minesweeper/Cell.java:41-67 | three right clicks restore the state, and the flag changes sum to zero |
| Board.Board.NextFlagState | src/com/vandeldt/minesweeper/Cell.java:41-68 | the clicked cell moves on in the flag cycle, no other cell changes, flagsRemaining changes by FlagDelta, and the invariant (flagsRemaining + Flagged cells == numMines) is kept |
| Cell.AdjacentMines | src/com/vandeldt/minesweeper/Cell.java:104-115 | the count lies between 0 and the list length; it is 0 iff no listed cell is a mine and equals the length iff every listed cell is a mine |
| Cell.FlagCount | src/com/vandeldt/minesweeper/Cell.java:77-79 | the flag count is at most the list length and is 0 iff no listed cell is flagged |
| Cell.FirstUnflaggedMine | src/com/vandeldt/minesweeper/Cell.java:77-85 | the position where the scan breaks: no unflagged mine before it, and an unflagged mine at it unless it is the list length |
| Cell.FirstUnflaggedMineAt | src/com/vandeldt/minesweeper/Cell.java:77-85 | any position with no unflagged mine before it and one at it (or the end) is the break position |
| Board.Board.GetChordStatus | src/com/vandeldt/minesweeper/Cell.java:71-101 | the scan with its early break returns the verdict of the reference function Cell.ChordStatusOf on the cell's neighbour list |
| Cell.ChordableIff | src/com/vandeldt/minesweeper/Cell.java:77-99 | the verdict is Chordable iff the flagged neighbours are exactly the mine neighbours |
| Cell.NeighbourIsMineWitness | src/com/vandeldt/minesweeper/Cell.java:80-92 | a NeighbourIsMine verdict names an unflagged mine neighbour, and the flags before it number exactly the adjacent mines |
| Cell.FlagsCoverMines | src/com/vandeldt/minesweeper/Cell.java:77-88 | when every mine neighbour is flagged, there are at least as many flags as mines, with equality iff every flag is on a mine |
| Cell.ChordStatusOf | src/com/vandeldt/minesweeper/Cell.java:77-99 | the reference verdict: Chordable only when every mine neighbour is flagged, NeighbourIsMine only when some neighbour is an unflagged mine |
| Cell.ChordStatusDependsOnOrder | src/com/vandeldt/minesweeper/Cell.java:77-98 | a 1 x 3 board and its mirror image have the same neighbour list [0, 2], one mine and one flag each; the verdict is NotEnoughFlags when the unflagged mine is listed first and NeighbourIsMine when it is listed last |
| Cell.NoUnflaggedMineNext | src/com/vandeldt/minesweeper/Cell.java:77-85 | a neighbour the scan passes without breaking extends the prefix that holds no unflagged mine |
| Cell.ChordStatusWithoutBreak | src/com/vandeldt/minesweeper/Cell.java:77-99 | the verdict of the same scan without its break; Chordable only when every mine neighbour is flagged |
| Cell.BreakUnseenWithoutUnflaggedMine | src/com/vandeldt/minesweeper/Cell.java:80-83 | without an unflagged mine among the neighbours the break is never taken, and the verdict equals the one without the break |
| Cell.BreakChangesVerdict | src/com/vandeldt/minesweeper/Cell.java:80-83 | on the middle cell of a 1 x 3 board, with the left mine unflagged and the right safe cell flagged, the scan gives NotEnoughFlags and the scan without the break gives NeighbourIsMine |
| Cell.BreakCausesLoss | src/com/vandeldt/minesweeper/Cell.java:80-92 | on the top-left cell of a 2 x 2 board, with both orthogonal safe cells flagged and the diagonal mine unflagged, the scan gives NeighbourIsMine and the scan without the break gives NotEnoughFlags |
| FloodFill.RevealCells | src/com/vandeldt/minesweeper/Cell.java:118-143 | a reveal keeps the board size, reduces the Default cells and raises the Revealed cells by the number of cells it reveals, and leaves the Flagged count unchanged; it terminates because each recursion step turns a Default cell into a Revealed one |
| FloodFill.ChordCells | src/com/vandeldt/minesweeper/Cell.java:146-151 | the same counts for revealing a list of cells in turn |
| FloodFill.RevealFloods | src/com/vandeldt/minesweeper/Cell.java:118-143 | a reveal is a flood from the cell: it only turns Default cells into Revealed ones, once each; every revealed cell is the start cell or a neighbour of an earlier revealed cell with no adjacent mine; afterwards no such blank revealed cell has a Default neighbour |
| FloodFill.ChordFloods | src/com/vandeldt/minesweeper/Cell.java:146-151 | a chord is a flood from the chorded cells, in the same sense |
| FloodFill.FirstRevealIsRoot | src/com/vandeldt/minesweeper/Cell.java:121-122 | the first cell a flood reveals is one of its start cells and was Default |
| FloodFill.FloodFromSettledCell | src/com/vandeldt/minesweeper/Cell.java:121 | a reveal of a cell that is not Default changes nothing |
| FloodFill.FloodRevealsNoMine | src/com/vandeldt/minesweeper/Cell.java:130-139 | if no Default start cell is a mine, the flood reveals no mine |
| FloodFill.FloodUnique | src/com/vandeldt/minesweeper/Cell.java:118-151 | two floods from the same states and start cells end in the same states, so the result does not depend on the recursion order |
| Board.Board.Reveal | src/com/vandeldt/minesweeper/Cell.java:118-143 | the new states and the cells revealed are those of FloodFill.RevealCells; numRevealed grows by the number revealed; the invariant is kept |
| Board.Board.Chord | src/com/vandeldt/minesweeper/Cell.java:146-151 | the new states and the cells revealed are those of FloodFill.ChordCells over the neighbour list; numRevealed grows by the number revealed; the invariant is kept |
| Board.RevealHidesMines | src/com/vandeldt/minesweeper/Cell.java:118-143 | revealing a cell that is not a Default mine, on a board with no revealed mine, reveals no mine |
| Board.ChordHidesMines | src/com/vandeldt/minesweeper/Cell.java:146-151 | chording cells none of which is a Default mine reveals no mine |
| Board.Board.ChordClick | src/com/vandeldt/minesweeper/Board.java:110-119 | on a revealed cell: if the verdict is Chordable, the cell is chorded; if NeighbourIsMine, the game ends and nothing else changes; if NotEnoughFlags, nothing changes |
| Board.FirstClickOutcome | src/com/vandeldt/minesweeper/Board.java:97-100 | with nothing revealed, revealing the clicked cell reveals it, and a mine is revealed iff the clicked cell holds a mine at that point |
| Board.RelocationOntoTrigger | src/com/vandeldt/minesweeper/Board.java:97-100 | once the clicked mine is cleared, the clicked cell is eligible for the relocated mine, and if the mine lands there the reveal shows a mine |
| Board.Board.FirstClickAsWritten | src/com/vandeldt/minesweeper/Board.java:97-100 | the first click as written: other mines stay, the clicked cell is revealed as by RevealCells, numRevealed counts the revealed cells, and a mine is revealed exactly when the relocated mine landed on the clicked cell |
| Board.RelocationAvoidsTrigger | src/com/vandeldt/minesweeper/Board.java:97-99 | with the clicked cell still a mine and nothing revealed, some cell is eligible and the clicked cell is not |
| Board.Board.FirstClick | src/com/vandeldt/minesweeper/Board.java:97-100 | the corrected first click: the clicked cell ends without a mine, every other mine stays, the invariant keeps the mine count, the cell is revealed as by RevealCells, and no mine is revealed |
| Board.Board.LeftClickLoses | src/com/vandeldt/minesweeper/Board.java:101-104 | the losing left clicks: a Default mine when something is already revealed, or a Revealed cell whose chord verdict is NeighbourIsMine (lines 115-117) |
| Board.Board.LeftClick | src/com/vandeldt/minesweeper/Board.java:91-121 | left-click dispatch on the clicked cell's state, as in the LeftClickEffect case list: trip; first click with the relocation as written (other mines stay, t revealed, the new mine possibly on t); reveal; chord verdict; or nothing on Flagged and Possible. `tripped` holds iff the cell was a Default mine with something revealed, and the game ends iff the click loses |
| Board.LeftClickHidesMines | src/com/vandeldt/minesweeper/Board.java:91-121 | a left click on a board with no revealed mine reveals no mine, except on a first click whose relocated mine lands back on t (which Board.RelocationOntoTrigger shows can happen) |
| Board.WinCheckMeaning | src/com/vandeldt/minesweeper/Board.java:130 | while no mine is revealed, the win test `revealed == h*w - mines` can never be exceeded and holds iff every safe cell is revealed |
| Board.Board.AllSafeCellsCounted | src/com/vandeldt/minesweeper/Board.java:130 | the win test of the click handler, `numRevealed == h*w - numMines`; Board.WinCheckMeaning gives its meaning |
| Board.Board.Update | src/com/vandeldt/minesweeper/Board.java:86-138 | the click handler. Once the game is over, nothing changes. Otherwise the click acts as ClickEffect says: left click as in LeftClick, right click moves the cell on in the flag cycle, any other button changes nothing. The game is over afterwards iff the left click lost or the win test holds. The invariant is kept |

## Left out

- Swing presentation: colours, borders, text, icons, layout, the mouse
  listeners, the labels `updateParent` refreshes, and the icon loop of
  `endGame`. Only `game_over = true` is kept from `endGame`.
- The "Win" line `update` prints to standard output.
- `Menu.java`, apart from its validation rule, which becomes the
  constructor's precondition. `Minesweeper.java` (frame layout and the reset
  hook) is not part of this model.
- `java.util.Random`. The draw is an arbitrary choice among the eligible
  cells. The distribution and the rejection loop are not modelled, and
  neither is the `Random` loop's failure to stop when no cell is eligible.
  `ArmMines` requires enough eligible cells, which every caller provides.
- The placeholder `Cell` that `getChordStatus` allocates for the highlight,
  and the highlight colours of the tripped cell and of the chord loss.
- 32-bit overflow of the counters. Counts never exceed h*w, and the model's
  integers are unbounded.
- The mouse-event plumbing. A click is a cell index and a button number.
- Board.Board.Reveal: `reveal` and `chord` recurse on the Java call stack,
  to a depth that grows with the blank region. On a large, sparsely mined
  board the source can throw `StackOverflowError` and leave the flood
  unfinished. The model's recursion has no depth limit, so it does not
  capture that failure. The same holds for Board.Board.Chord.
- LeftClickHidesMines: is stated only for clicks whose relocated mine did
  not land back on the clicked cell. On the remaining first clicks the
  source does reveal a mine (Board.RelocationOntoTrigger).

## Findings

| source | as written | input that shows it | evidently intended | confidence | as-written member | corrected member |
|---|---|---|---|---|---|---|
| src/com/vandeldt/minesweeper/Board.java:97-100 | `trigger.setMine(false)` runs before `armMines(1)`. The clicked cell is then Default and not a mine, so the draw may put the mine back on it, and `reveal()` reveals it as a mine without ending the game | a 1 x 2 board with its mine on cell 0, a first left click on cell 0, and a draw that picks cell 0 | the first click is safe: the relocated mine lands elsewhere and the clicked cell is revealed without a mine | not executed | Board.RelocationOntoTrigger, Board.Board.FirstClickAsWritten | Board.Board.FirstClick, Board.RelocationAvoidsTrigger |

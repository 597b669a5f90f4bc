# A model of the maze game, the controller's line discipline and the kernel's console and files

The repository holds a maze game that scrolls a picture in mode X, a serial line discipline for its controller, and a
small kernel with a text console and a read-only file system. This project models their hardest parts in Dafny and
proves what they promise. `dafny verify dfyconfig.toml` checks all of it.

**The maze** (`MazeCells`, `MazeGraph`, `MazeSearch`, `MazeDig`, `MazeDraw`, `MazeWorms`, `MazeTape`, `MazeScan`,
`MazeRepair`, `MazePlay`, `MazeSupply`, `MazeRender`, `Maze`). The class `MazeModel.Maze` is the maze array of `maze.c`
with its sizes, fruits and exit. Worms dig at random, then a breadth-first search and a repair loop connect what the
worms left apart. The main result is `MakeMaze`: every maze it makes is connected, for every outcome of the random
choices; the search marks exactly what is reachable (`MarkMazeArea`), and the repair loop draws points as the random
values say until fewer than 20 are unreached or 100 were drawn, and then scans at most xDim * yDim steps for each point
left (`RepairPhase`, `ScanMeets`). `Wander` and `WormPhase` describe the worms by their directions and the shares of
the weights that these fall into, and `FirstGood` a draw by the pair of values that decides it.

**The picture** (`ModeXAddress`, `ModeX`). The class `ModeX.View` is the build buffer of `modex.c`: four planes in
reverse order, relocated by an overlapping copy when the window slides out of the buffer. Addresses are integers
relative to the start of `build`, fences included. The main results are `SetViewWindow` (whatever path runs, every
shared pixel survives), the clipped drawing operations (exactly the intended pixels), and `ShowScreen`.

**The game** (`MazePlayer`, `MazeScene`, `MazeGame`). The class `MazeGame.Game` is the state of `mazegame.c`. The main
result is the invariant `Ready`: at the start of every tick, in every run of `PlayGame`, the incrementally drawn
picture equals a complete drawing of the maze in the window, the window is on the maze, the player is well inside it
and on open cells. `MazeScene` is the game without its picture; `Tick`, `Round`, `PlayLevel` and `PlayGame` are each
proved to do to it exactly what the requests say, and to play a level exactly if the random values suffice for its
maze. What the requests say is stated from the cells and the keys in `CellTick`, `WayTick`, `WinTick` and
`HeldRequest`. `Frame` says that drawing, showing and undrawing the sprites leaves the build buffer as it was.

**The line discipline** (`TuxScan`, `TuxReceive`, `TuxTransmit`, `TuxLine`). Two rings of 64 bytes, and a scanner that
carries at most two bytes from one interrupt to the next. `ChunkingIrrelevant` and `Serve` say that exactly the framed
triples of the stream are delivered, once each and in order, however it was cut into interrupts, and that both rings
are queues. An interrupt that brings more than there is room for loses the rest, and no other does (`NothingDropped`).
On the transmit side a wake-up may hand over one byte more than the driver takes: `WakeUpLoses`, `Conservation` and
`Lossless` say exactly when bytes get lost, over one wake-up and over runs, and `ByteLost` is a concrete case;
`WriteWakeup` and `TakenAtOnce` that a driver with room for all gets all.

**The console** (`ConsoleText`, `Console`). `Screen.Run` says that over any run of output and terminal switches each
terminal shows the last 25 rows of its own unbounded, wrapped transcript. `ConsoleText` defines the transcript without
any screen, and `LayoutIs` says that it is the paragraphs of the text, each cut into rows of 80.

**Files** (`FileData`, `FileSystem`, `FileRuns`). `FileData` says what `read_data` puts in the buffer and what it
answers, with 32-bit arithmetic, and when that is what the documentation promises: `ReturnExact`, `ReturnSound` and
`ChunksExact` are exact conditions, `Overshoot` a concrete case where it is not. `FileSystem` has the system calls, and
`Cat`: the cat program writes exactly the file, because its 1024 bytes divide the block. `FileRuns` is about runs of
opens, closes and reads on several descriptors: `NeverPastExactly`, `InterleavedReads`, `ChunkedReads`, and
`NamedReads`, which goes from the name that was opened to the bytes that are handed over.

**Numbers as text** (`Numerals`). `itoa` for every radix with its in-place `strrev`, and the `%#x` conversion.

Methods that change state are proved against specification functions or state their effect outright; the lemmas beside
them say what the specifications mean. The values that `random()` returns are a finite sequence, the tape; a run that
would need more of it ends as `Starved`, which stands for the runs that do not end. `WormPhase`, `RepairPhase`,
`Furnish` and `MakeMaze` say exactly for which values that happens, and `SufficientTape` that it need not.

Where code and documentation disagree the model follows the code: `read_data` answers only the size of its last copy
when a read crosses a block (`file_system_driver.c:137-138`), while `syscall.c:226-231` promises the number of bytes
read; a read past the end of the file answers 0, as promised there, for at most one length (`PastEndAnswer`); and
`tuxctl_ldisc_write_wakeup` may hand over one byte more than the driver has room for (`tuxctl-ld.c:203`), so an answer
of 0 from `tuxctl_ldisc_put` does not mean what its comment says (`tuxctl-ld.c:244-248`).

## Model

| member | source | states |
|---|---|---|
| `MazeCells.PackedTests` | MP2/maze.h:57-69 | every test of a mask, and every setting and clearing of the reach and exit bits and clearing of the fruit bits, is the field access or field update of the model, on every well-formed cell |
| `MazeCells.PackedFruit` | MP2/maze.c:708 | setting the fruit bits of a cell without a fruit is the field update of the model |
| `MazeCells.PackedWhole` | MP2/maze.c:297-337 | a byte equals MAZE_WALL, or MAZE_NONE, exactly if the cell is a plain wall, or plain floor |
| `MazeCells.MazeIndexIs` | MP2/maze.c:91 | the index is the product that the macro spells out |
| `MazeCells.IndexInArray` | MP2/maze.c:81-91 | every coordinate of a maze of any permitted size, and of the spare rows around it, is an index of the array |
| `MazeCells.IndexAlias` | MP2/maze.c:62-91 | two coordinates share a cell exactly when they are the same or one is on the left boundary and the other on the right boundary a row further up |
| `MazeCells.LatticeSize` | MP2/maze.c:267 | there are xDim * yDim (odd,odd) points |
| `MazeGraph.ReachesBack` | MP2/maze.c:121-188 | reachability through open edges is symmetric |
| `MazeGraph.ReachesInside` | MP2/maze.c:121-188 | a set that no open edge leaves holds everything reachable from a point inside it |
| `MazeGraph.LatticeEdge` | MP2/maze.c:151-180 | inside a walled boundary an open edge next to a lattice point leads to another lattice point, so a search never leaves the maze |
| `MazeGraph.LatticeAround` | MP2/maze.c:161-180 | every cell a search looks at, one and two steps away, is in the array |
| `MazeSearch.LookAround` | MP2/maze.c:151-180 | what the two tests of a direction read: behind an open edge is a lattice point, whose mark says whether it was seen or avoided |
| `MazeSearch.SearchMore` | MP2/maze.c:161-180 | queueing a newly seen point keeps the search invariant, and the queue has room for it |
| `MazeSearch.SearchQueue` | MP2/maze.c:135-147 | no two entries of the queue are the same, and it never has more entries than there are lattice points |
| `MazeSearch.SearchDone` | MP2/maze.c:144-187 | when the queue is used up, the seen points are exactly those reachable without entering marked ones |
| `MazeModel.Maze.Explore` | MP2/maze.c:161-180 | one direction from a queued point: the point behind the open edge is marked and queued if it was not, and the search invariant holds on |
| `MazeModel.Maze.ExploreAround` | MP2/maze.c:149-181 | all four directions from the front of the queue |
| `MazeModel.Maze.MarkMazeArea` | MP2/maze.c:121-188 | marks exactly the lattice points reachable from (x,y) through open edges without crossing marked ones, changes nothing else, and returns their number |
| `MazeDig.TurnWeight` | MP2/maze.c:240 | the turn weights are positive, and at most 84 |
| `MazeDig.DugPillars` | MP2/maze.c:263-346 | (even,even) cells stay walls |
| `MazeDig.DugBordered` | MP2/maze.c:263-346 | the boundary stays wall |
| `MazeDig.DigEdgeJoins` | MP2/maze.c:315-339 | an edge cell that has been opened has an open lattice point on both sides |
| `MazeDig.DigMove` | MP2/maze.c:315-339 | a worm's bite of the edge and of the point behind it keeps the digging invariant, and the count of walled points goes down exactly if the point was walled |
| `MazeDig.WormStep` | MP2/maze.c:315-339 | the same in coordinates, for each of the four directions with room |
| `MazeDig.WalledSize` | MP2/maze.c:276-277 | emptying a walled lattice point lowers the count of walled ones by one |
| `MazeDig.AllWalls` | MP2/maze.c:254-267 | the array full of walls satisfies the digging invariant, with the whole lattice walled |
| `MazeModel.Maze.PointFrom` | MP2/maze.c:271-272 | two random values give the (odd,odd) point that their remainders name; it is in the maze |
| `MazeDraw.DrawFails` | MP2/maze.c:270-273 | a draw that is repeated while it hits a bad point fails exactly if every pair of random values names a bad point |
| `MazeDraw.FirstGood` | MP2/maze.c:270-273 | what is drawn is the point that the first pair of values names that names no bad one, and the values behind this pair are left |
| `MazeDraw.WeightsAre` | MP2/maze.c:295-307 | the cumulative weights, one direction after another, are those of the turn table for directions with room, and grow only for such |
| `MazeDraw.WeightIs` | MP2/maze.c:240 | a direction with room weighs 3 if it leads back, otherwise 1 into open space, and into wall 84 straight on and 9 to either side |
| `MazeModel.Maze.ChooseDirection` | MP2/maze.c:295-309 | the direction is the one in whose share of the cumulative weights the random value falls, and it has room to move, whatever the value |
| `MazeModel.Maze.Weigh` | MP2/maze.c:294-307 | the table holds the cumulative weights of the directions, each direction without room adds nothing, and the total is positive |
| `MazeModel.Maze.WormMove` | MP2/maze.c:315-339 | exactly the edge cell and the lattice point behind it become open, the digging invariant holds, and the returned count is the number of walled lattice points |
| `MazeWorms.BittenIs` | MP2/maze.c:315-339 | exactly the two cells of a move become open floor |
| `MazeModel.Maze.OneWorm` | MP2/maze.c:269-340 | the worm starts at the first drawn point that is still walled, facing the way that the next value says, and wanders from there; it fails exactly if the values run out; the digging invariant holds and the count stays the number of walled lattice points |
| `MazeModel.Maze.DrawWalled` | MP2/maze.c:270-273 | the first drawn lattice point that is still walled; it fails exactly if no pair of random values names one |
| `MazeModel.Maze.Wander` | MP2/maze.c:282-340 | there is a sequence of directions, each in the share of its random value of the weights computed facing the direction before it, at the point and in the maze that the earlier moves led to; none but the last leads back, and the last does; maze and end point are those of the moves before it. It fails exactly if the values run out first, none of their directions leading back |
| `MazeWorms.TurnIs` | MP2/maze.c:295-309 | the direction in whose share of the weights the value falls is the one that the worm's function takes |
| `MazeWorms.ShortWorm` | MP2/maze.c:268-340 | for every walled lattice point some four values make a worm that digs out just this point |
| `MazeWorms.WormsTape` | MP2/maze.c:263-346 | whatever worms have dug so far, some random values finish the phase |
| `MazeModel.Maze.WormPhase` | MP2/maze.c:263-346 | the maze is made by a chain of such worms, each with the values that the one before left, while some lattice point is walled; the last point and the values left are those of the last worm. It fails exactly if the values run out; otherwise no lattice point is walled any more and the digging invariant holds |
| `MazeRepair.NewEdge` | MP2/maze.c:383-390 | after an edge cell is knocked down, every open step from a lattice point was open before or leads across that cell |
| `MazeRepair.Joined` | MP2/maze.c:379-397 | after the edge between the reached part and a new point is knocked down, (1,1) reaches its old part and the new point's area and nothing else |
| `MazeRepair.FrontierExists` | MP2/maze.c:355-398 | while a lattice point is unreached, some unreached lattice point is next to a reached one |
| `MazeRepair.RepairStart` | MP2/maze.c:353 | before the loop the marks are exactly what (1,1) reaches |
| `MazeRepair.RepairStep` | MP2/maze.c:383-397 | a repair keeps the invariant: the maze is dug and the marks are exactly what (1,1) reaches |
| `MazeRepair.Unreached` | MP2/maze.c:353-398 | the count of unreached points is 0 exactly when all are reached, and otherwise there is a point to repair at |
| `MazeScan.ScanCloser` | MP2/maze.c:363-367 | each step of the cyclic scan arrives at a given lattice point or is one step closer to it |
| `MazeScan.NextPlace` | MP2/maze.c:363-367 | with the lattice points numbered row by row, a step of the scan leads to the next number, and from the last to the first |
| `MazeScan.ScanMeets` | MP2/maze.c:363-367 | from any lattice point the scan arrives at any other, or again at the same one, after at least one and at most xDim * yDim steps |
| `MazeRepair.ScanMeetsFrontier` | MP2/maze.c:355-398 | while some lattice point is unreached, the scan arrives at one that can be joined after at most xDim * yDim steps |
| `MazeRepair.LookBeyond` | MP2/maze.c:383-390 | the four neighbour tests see a mark exactly where the lattice point two cells away is reached |
| `MazeModel.Maze.Join` | MP2/maze.c:379-397 | knocking one wall down and searching again: the marks are what (1,1) now reaches, and the count is what is still unreached |
| `MazeModel.Maze.Connect` | MP2/maze.c:383-397 | an unreached point next to a reached one is joined to it by knocking down exactly the edge between, and the count falls; any other point leaves everything as it was; which edge it is follows from the order of the tests, up, left, right, down |
| `MazeModel.Maze.Attempt` | MP2/maze.c:379-397 | at a reached point nothing changes; at an unreached one the maze becomes the one that the order of the four tests says; unless the count falls, the point was not the one that can be joined, and that one still can be |
| `MazeRepair.JoinedAtIs` | MP2/maze.c:383-390 | of the neighbours above, left, right and below, the first one that is reached is joined, by opening the cell between; without one nothing changes |
| `MazeModel.Maze.DrawUnreached` | MP2/maze.c:373-377 | the first drawn lattice point that is unreached; it fails exactly if no pair of random values names one |
| `MazeModel.Maze.RepairPhase` | MP2/maze.c:353-398 | ends with (1,1) reaching every lattice point, or fails in a random draw: exactly if the tries that the random values describe get stuck, and the values left are those after these tries. The scan takes at most xDim * yDim steps for every point that was unreached before, and at most one step if there was none |
| `MazeModel.Maze.Repair` | MP2/maze.c:355-398 | the loop of the same, from any state of the repair: it fails exactly if the random tries do, and the scan takes at most xDim * yDim steps for every unreached point |
| `MazeRepair.MarkedAre` | MP2/maze.c:372-377 | the marked cells are those that (1,1) reaches, so the random draw is one for a point outside |
| `MazeRepair.StuckSomewhere` | MP2/maze.c:362-377 | when the random tries get stuck, the draw fails on some end of the random values, for a set that leaves out at least 20 points |
| `MazeRepair.TriesThrough` | MP2/maze.c:362-377 | with values that suffice for 100 draws and more whatever their targets, the random tries go through, and leave values that suffice for the rest |
| `MazeTape.PlentyExists` | MP2/maze.c:370-377 | for any number of draws there are values that suffice whatever the targets |
| `MazeModel.Maze.ClearMarks` | MP2/maze.c:404-406 | the marks are gone and nothing else changes |
| `MazeModel.Maze.Dig` | MP2/maze.c:254-406 | both phases and the removal of the marks: a proper maze, all lattice points open and connected, boundary and pillars wall; it fails exactly if the worms run out of values or the random tries get stuck, and the values left are those after both |
| `MazePlay.ProperConnected` | MP2/maze.c:348-398 | any lattice point of a proper maze reaches any other through open cells |
| `MazePlay.FruitCount` | MP2/maze.c:695-716 | placing or removing a fruit changes the number of fruited cells by one |
| `MazePlay.ExitPlaced` | MP2/maze.c:431-438 | an exit on an unfruited point makes the finished maze playable |
| `MazeModel.Maze.DrawUnfruited` | MP2/maze.c:431-435 | the first drawn lattice point without a fruit; it fails exactly if no pair of random values names one |
| `MazeModel.Maze.AddFruit` | MP2/maze.c:695-716 | the first drawn lattice point without a fruit gets a fruit, the count goes up by one, and nothing else changes; it fails exactly if there is no such point or no value left, and then changes nothing |
| `MazeSupply.OneFruitIs` | MP2/maze.c:698-708 | the point is named by the first pair of values that names one without a fruit, and the next value modulo 7 says which fruit |
| `MazeModel.Maze.Furnish` | MP2/maze.c:426-438 | the required fruits and one exit, on an unfruited point; it fails exactly if the draws for these points do, one after another |
| `MazeModel.Maze.MakeMaze` | MP2/maze.c:234-441 | fails exactly for a forbidden size, and then changes nothing; a maze it makes has the requested size and number of fruits, is fully connected, with walled boundary and pillars, one exit at the recorded place, and no marks. For a permitted size it makes one exactly if the random values last for the worms, the random tries, the fruits and the exit, and never one with as many fruits as lattice points |
| `MazeSupply.ExitByFruits` | MP2/maze.c:426-438 | where further fruits and the exit go depends on nothing of the maze but where its fruits are |
| `MazeSupply.GrowthSucceeds` | MP2/maze.c:426-438 | with values that suffice and more lattice points than fruits, every fruit finds a place and so does the exit |
| `MazeSupply.AmpleSuffices` | MP2/maze.c:234-441 | values that finish the worm phase and suffice for all later draws whatever their targets make a maze |
| `MazeSupply.SufficientTape` | MP2/maze.c:234-441 | for every permitted size and every number of fruits smaller than the number of lattice points, some random values suffice, so that a maze is made |
| `MazeModel.Maze.BlockAt` | MP2/maze.c:462-497 | every read is inside the array and the block chosen is the one the full drawing shows there |
| `MazeRender.ShownIs` | MP2/maze.c:462-497 | the block index tells the exit exactly once no fruit is left, mist with or without a bump exactly for unseen cells, which fruit, floor, and for walls which of the four neighbours are walls |
| `MazeModel.Maze.FillHorizBuffer` | MP2/maze.c:510-538 | the buffer is the row of the full drawing, for any starting pixel |
| `MazeModel.Maze.FillVertBuffer` | MP2/maze.c:551-582 | the buffer is the column of the full drawing, for any starting pixel |
| `MazeRender.OtherBlockSame` | MP2/maze.c:462-497 | what a cell shows depends on that cell and its neighbours' walls alone, save for the exit, which appears when the number of fruits reaches 0 |
| `MazePlay.UnveiledPlayable` | MP2/maze.c:594-623 | seeing a cell keeps the maze playable, moves no wall and forgets nothing |
| `MazePlay.EatenPlayable` | MP2/maze.c:636-664 | eating the fruit of a cell keeps the maze playable with one fruit less |
| `MazePlay.UnveiledAllIs` | MP2/mazegame.c:283-290 | after a list of cells has been seen, exactly the listed cells are seen in addition, whatever the order, and nothing else differs |
| `MazePlay.InSight` | MP2/mazegame.c:283-290 | the thirteen cells are those no more than two cells away |
| `MazePlay.LookedAroundIs` | MP2/mazegame.c:275-290 | after a player has come to a cell its fruit is gone, exactly the cells of the maze no more than two cells away are seen in addition, and nothing else has changed |
| `ModeXAddress.Sizes` | MP2/modex.c:70-73 | one plane takes 14560 bytes, a picture 58241, the build buffer 78241, and a fresh window starts 10000 bytes in |
| `ModeXAddress.OffsetInjective` | MP2/modex.c:52-75 | no two pixels of a window share an address, for every alignment of the window |
| `ModeXAddress.OffsetInside` | MP2/modex.c:52-75 | every pixel of a fitting window is inside the build buffer |
| `ModeXAddress.BaseFits` | MP2/modex.c:426-436 | a relocated window fits the build buffer |
| `ModeXAddress.OverlapInside` | MP2/modex.c:438-479 | the contiguous copy from the first to the last shared pixel covers every shared pixel in all four planes |
| `ModeXAddress.CopyInside` | MP2/modex.c:468-491 | source and target of that copy lie in the build buffer |
| `ModeXAddress.NextInRow` | MP2/modex.c:1137-1150 | the next pixel of a row is one plane back, or in plane 3 of the next byte |
| `ModeXAddress.ShowInside` | MP2/modex.c:503-533 | each plane shown is read from inside the build buffer |
| `ModeXAddress.ShowAddress` | MP2/modex.c:503-533 | the byte copied to display pixel (c,r) is that of logical pixel (show_x + c, show_y + r) |
| `ModeX.Pages` | MP2/modex.c:503-533 | the two display pages flip into each other, do not overlap, and stay clear of the status bar's bytes 0 to 1439 |
| `ModeX.View.constructor` | MP2/modex.c:289-346 | the view starts fitting, with both fences intact and a valid page |
| `ModeX.View.FencesIntact` | MP2/modex.c:357-380 | the check of the memory fences succeeds exactly when no fence byte was changed |
| `ModeX.View.FencesKept` | MP2/modex.c:357-380 | storing nothing but pixels of the view leaves the fences intact |
| `ModeX.View.PictureRestored` | MP2/modex.c:629-1055 | if every pixel of the view is what it was and no other byte changed, the whole build buffer is what it was |
| `ModeX.View.SetPixel` | MP2/modex.c:676-677 | changes one logical pixel and no other, and no byte that is not a pixel of the view |
| `ModeX.View.GetPixel` | MP2/modex.c:1050-1051 | reads the logical pixel |
| `ModeX.View.Clip` | MP2/modex.c:639-671 | the first visible pixel of a rectangle, its place in the rectangle's image, and how many columns and rows are visible |
| `ModeX.View.DrawFullBlock` | MP2/modex.c:629-681 | exactly the visible pixels of the block become the image's, for every position |
| `ModeX.View.DrawFullBlockWithMask` | MP2/modex.c:932-990 | the same where the mask is 1, and nowhere else |
| `ModeX.View.CopyFullBlock` | MP2/modex.c:1003-1055 | the buffer gets exactly the visible pixels under the block; the picture is untouched |
| `ModeX.View.SaveFloorBlock` | MP2/modex.c:696-759 | the buffer gets exactly the visible pixels under the text, whose place is moved to stay on view |
| `ModeX.View.DrawFruitTextFullBlock` | MP2/modex.c:774-839 | under set text pixels the saved pixel in its transparent colour, under the others the saved pixel; nothing else changes |
| `ModeX.TransparentIs` | MP2/modex.c:831-834 | the transparent colour is the same place in the next quarter of the palette |
| `ModeX.View.TextPlaced` | MP2/modex.c:787-795 | at least 15 rows of a text are on view, and it is moved only if it would leave the view or touch its last row |
| `ModeX.View.MaskFruitTextFullBlock` | MP2/modex.c:854-914 | the saved pixels are put back, and nothing else changes |
| `ModeX.View.SetViewWindow` | MP2/modex.c:397-492 | every pixel that is in both the old and the new window keeps its value at its new address, whichever path runs, and the new window fits the buffer |
| `ModeX.View.MoveBytes` | MP2/modex.c:481-491 | the overlapping copy in the chosen direction moves every byte unharmed |
| `ModeX.View.DrawHorizLine` | MP2/modex.c:1120-1154 | row y of the view becomes the maze's row and nothing else changes; -1, and no change, outside the view |
| `ModeX.View.DrawVertLine` | MP2/modex.c:1080-1105 | column x of the view becomes the maze's column and nothing else changes; -1, and no change, outside the view |
| `ModeX.View.CopyImage` | MP2/modex.c:1541-1557 | one plane of video memory gets 14560 bytes of the build buffer and nothing else changes |
| `ModeX.View.ShowPlane` | MP2/modex.c:520-524 | one plane of the page shows the pixels of every fourth column |
| `ModeX.View.ShownAt` | MP2/modex.c:503-533 | display pixel (c,r) is byte 80 r + c / 4 behind the start of the page, in plane c modulo 4 |
| `ModeX.View.ShowScreen` | MP2/modex.c:503-533 | the other page shows logical pixel (show_x + c, show_y + r) at (c,r), for every alignment; the displayed page and the status bar are untouched |
| `MazePlayer.TurnBack` | MP2/mazegame.c:592-606 | turning back between two cells keeps the player on the segment, at the distance the new count says |
| `MazePlayer.SetOut` | MP2/mazegame.c:628-638 | setting out from a cell towards an open neighbour puts the player on the segment between them |
| `MazePlayer.StepOn` | MP2/mazegame.c:643-660 | one pixel of motion keeps the player on the segment |
| `MazePlayer.TurnedOnTrack` | MP2/mazegame.c:591-606 | after a possible turn back the player is on track, and exactly on a cell when the count is 0 |
| `MazePlayer.PlayerClear` | MP2/mazegame.c:592-660 | every pixel of the player's block is in an open cell of the maze |
| `MazePlayer.PlayerInside` | MP2/mazegame.c:592-660 | the player never leaves the inside of the boundary |
| `MazePlayer.TickOnTrack` | MP2/mazegame.c:592-660 | whatever is requested, the player is on open cells after the tick, and at a cell whenever the count is 0 |
| `MazePlayer.SteeredGrows` | MP2/mazegame.c:611-638 | unveiling and eating do not influence where the player may go |
| `MazeGame.StartOnTrack` | MP2/mazegame.c:509-522 | the player can start at (1,1) in every maze |
| `MazeGame.TickFacts` | MP2/mazegame.c:592-638 | what choosing a direction in a tick does to direction and count, and that the player stays on track |
| `MazeGame.UnveiledElsewhere` | MP2/maze.c:594-623 | seeing a cell changes no pixel of any other cell but its double on the opposite boundary |
| `MazeGame.EatenElsewhere` | MP2/maze.c:636-664 | eating a fruit changes no pixel of any other cell, save the exit when it was the last fruit |
| `MazeGame.Game.constructor` | MP2/modex.c:289-346 | the game's buffers are allocated, distinct, and of their sizes |
| `MazeGame.Game.PanX` | MP2/mazegame.c:196-260 | after moving the window one column and drawing one line, the picture is again a complete drawing of the window |
| `MazeGame.Game.PanY` | MP2/mazegame.c:172-236 | after moving the window one row and drawing one line, the picture is again a complete drawing of the window |
| `MazeGame.Game.MoveUp` | MP2/mazegame.c:172-186 | one pixel up; the window follows exactly as far as it must, and the picture stays a complete drawing |
| `MazeGame.Game.MoveRight` | MP2/mazegame.c:196-211 | one pixel right; the window follows exactly as far as it must, and the picture stays a complete drawing |
| `MazeGame.Game.MoveDown` | MP2/mazegame.c:221-236 | one pixel down; the window follows exactly as far as it must, and the picture stays a complete drawing |
| `MazeGame.Game.MoveLeft` | MP2/mazegame.c:246-260 | one pixel left; the window follows exactly as far as it must, and the picture stays a complete drawing |
| `MazeGame.Game.UnveilSpace` | MP2/maze.c:594-623 | exactly that cell is marked as seen, and the picture stays a complete drawing, as long as the cell's double on the other boundary is off the window |
| `MazeGame.Game.TakeFruit` | MP2/maze.c:648-652 | the fruit is gone from its cell and from the count, nothing else changes |
| `MazeGame.Game.EatFruit` | MP2/maze.c:648-661 | the fruit is gone and the picture, with the exit if it just appeared, is a complete drawing again |
| `MazeGame.Game.CheckForFruit` | MP2/maze.c:636-664 | returns the fruit of the cell, 0 outside the maze; eats it, and keeps the picture a complete drawing |
| `MazeGame.Game.CheckForWin` | MP2/maze.c:676-683 | true exactly when no fruit is left and the cell is the recorded exit |
| `MazeGame.Game.FindOpenDirections` | MP2/maze.c:807-812 | each flag says whether the cell in that direction is open |
| `MazeGame.Game.UnveilSquare` | MP2/mazegame.c:283-286 | exactly the nine cells around the player are seen in addition, and the picture stays a complete drawing |
| `MazeGame.Game.EdgeOffView` | MP2/mazegame.c:172-294 | when a cell near the player is on the left or right boundary, its double on the other one is off the window |
| `MazeGame.Game.UnveilAroundPlayer` | MP2/mazegame.c:275-294 | the maze is exactly the one with the player's fruit eaten and the thirteen cells in sight seen, the picture is a complete drawing of it, and the answer says whether the level is won |
| `MazeGame.Game.Steer` | MP2/mazegame.c:617-638 | the requested direction if open, else straight on if open, else stop; whatever is read past the array before the first request does not matter |
| `MazeGame.Game.TurnBackNow` | MP2/mazegame.c:591-606 | a backward request is taken at once, and the count becomes the way back |
| `MazeGame.Game.AtCell` | MP2/mazegame.c:608-639 | at a cell: what is unveiled, that the level is won exactly on the exit with no fruit left, and where the player goes on otherwise |
| `MazeGame.Game.Choose` | MP2/mazegame.c:588-641 | the first half of a tick, before the player moves; the level is won exactly if the player is then at a cell, on the exit, with no fruit left |
| `MazeGame.Game.Advance` | MP2/mazegame.c:643-660 | one pixel in the direction of motion, the count one less, and the window follows exactly as far as it must |
| `MazeGame.Game.Tick` | MP2/mazegame.c:572-672 | for any request the scene after the tick (maze, player, motion, window) and whether the level is won are exactly as the specification says, and every invariant holds again, among them that the incrementally drawn picture equals a complete drawing |
| `MazeGame.Game.DrawPlayer` | MP2/mazegame.c:677-678 | the player is over the maze, whose pixels below are kept |
| `MazeGame.Game.DrawText` | MP2/mazegame.c:689-703 | the text is over that in transparent colours, and the pixels below are kept |
| `MazeGame.Game.DrawSprites` | MP2/mazegame.c:677-703 | each pixel of the view is the text over the player over the maze |
| `MazeGame.Game.UndrawSprites` | MP2/mazegame.c:705-708 | taking the sprites out again gives every pixel back |
| `MazeGame.Game.Frame` | MP2/mazegame.c:677-708 | the page shown is the text over the player over the maze, for every position and clipping of both, and the build buffer is byte for byte what it was before the frame |
| `MazeGame.Game.ComposedIs` | MP2/mazegame.c:677-703 | what a pixel of the frame is: the maze, over it the player's image for the last direction where its mask has a 1, and over both the transparent colour where the centred text has a pixel |
| `MazeGame.Game.DrawWindow` | MP2/mazegame.c:155-158 | drawing every line of a new window makes the picture a complete drawing |
| `MazeGame.Game.PrepareMazeLevel` | MP2/mazegame.c:125-162 | a playable maze of the level's size and fruits and a picture that is a complete drawing of it, for every level from 1 on exactly if the random values suffice for that maze |
| `MazeGame.Game.EnterMaze` | MP2/mazegame.c:509-525 | the player starts at (1,1), stopped, with every invariant of a tick in place |
| `MazeGame.Game.StartLevel` | MP2/mazegame.c:502-534 | a level from 1 on starts exactly if the random values suffice for its maze; then every invariant of a tick holds, the scene is that of the start of the level, its first frame is on show, and the status bar is as it was |
| `MazeGame.Game.Round` | MP2/mazegame.c:572-716 | the scene after the ticks of a round, and whether the level is won, are those that the specification gives for its requests; its frame is on show, and every invariant and the status bar are kept |
| `MazeGame.Game.PlayLevel` | MP2/mazegame.c:502-717 | a level from 1 on is played exactly if the random values suffice for its maze; it starts with the scene of its start and ends with the scene that the requests of its rounds lead to, won or not as these say; every invariant and the status bar are kept |
| `MazeGame.Game.PlayGame` | MP2/mazegame.c:494-717 | the levels one after another: each starts on a maze of its own size, all before the last are won by their requests, and the game ends because the last one is not, or all ten are, or the random values do not suffice for the next maze; every invariant is kept, no memory fence is broken and the status bar is never written to |
| `MazeScene.CellTick` | MP2/mazegame.c:608-660 | on a cell that does not win the level: the player sets out in the requested direction if its neighbour is no wall, otherwise straight on if that is no wall and was not just turned away from, and otherwise stops |
| `MazeScene.WayTick` | MP2/mazegame.c:592-660 | between cells: a backward request is taken at once with the rest of the way reversed, any other leaves the player going on, one pixel either way; nothing is seen, eaten or won |
| `MazeScene.WinTick` | MP2/mazegame.c:608-615 | a tick wins the level exactly if the player is on the exit cell and no other cell holds a fruit |
| `MazeScene.HeldRequest` | MP2/mazegame.c:592-660 | while one direction stays requested, the player keeps to the old direction, or stands, until the first cell where the requested one is open, and sets out there |
| `MazeScene.FollowNearest` | MP2/mazegame.c:172-260 | the window goes to the nearest position that has the player far enough from its edges or is at an end of the maze, so it moves by at most one pixel for a step |
| `MazeScene.Levels` | MP2/mazegame.c:134-139 | sizes start at the least, grow by two a level and stop at the most; fruits start at one, grow by one every two levels and stop at six |
| `MazeScene.FruitsFit` | MP2/mazegame.c:134-139 | every level has more lattice points than fruits |
| `MazeScene.FramesDoNotMatter` | MP2/mazegame.c:572-716 | what a level comes to depends on the requests of its ticks alone, and not on how they are spread over frames |
| `MazeScene.WonAtExit` | MP2/mazegame.c:572-672 | whatever is requested, a level is won only on the exit with no fruit left, and its size and exit stay |
| `MazeGame.Game.OneBoundaryOnView` | MP2/mazegame.c:172-260 | the window never shows both the left and the right boundary, which share their cells, so no stale double can be on view |
| `MazeGame.Game.PlayerOnView` | MP2/mazegame.c:172-260 | between frames the whole player is inside the window |
| `TuxScan.ScanRest` | MP2/module/tuxctl-ld.c:300-317 | what a scan leaves over is at most two bytes, the last of the stream |
| `TuxScan.ScanAppend` | MP2/module/tuxctl-ld.c:286-318 | scanning a stream in two pieces, carrying the rest over, gives the packets and the rest of scanning it whole |
| `TuxScan.ScanExact` | MP2/module/tuxctl-ld.c:300-312 | the packets are exactly the framed triples of the stream, wherever they start, in order |
| `TuxScan.AfterPacket` | MP2/module/tuxctl-ld.c:305-308 | no framed triple starts inside another, so skipping three bytes misses none |
| `TuxScan.WindowsFramed` | MP2/module/mtcp.h:26-30 | every delivered packet has the high bits 0, 1, 1 and is in the stream |
| `TuxScan.WindowsCount` | MP2/module/tuxctl-ld.c:300-312 | there are as many packets as positions where a framed triple starts: each is delivered once |
| `TuxScan.ChunkingIrrelevant` | MP2/module/tuxctl-ld.c:286-318 | however a stream is cut into interrupts, exactly its framed triples are delivered, once each and in order |
| `TuxLine.Ring.constructor` | MP2/module/tuxctl-ld.c:66-70 | a ring starts empty |
| `TuxLine.Ring.Counts` | MP2/module/tuxctl-ld.c:99-107 | the macros count the bytes in the ring and the room left, and say whether it is empty or full at 63 bytes |
| `TuxLine.Ring.Put` | MP2/module/tuxctl-ld.c:173-174 | appends one byte to the contents |
| `TuxLine.Ring.Get` | MP2/module/tuxctl-ld.c:235-236 | takes the oldest byte from the contents |
| `TuxLine.LineDiscipline.constructor` | MP2/module/tuxctl-ld.c:110-135 | a line discipline that is opened for the first time has two empty rings and no carry |
| `TuxLine.LineDiscipline.Open` | MP2/module/tuxctl-ld.c:110-135 | opened once more, both rings are empty, but the static carry of the scanner stays, and the scan goes on with it |
| `TuxLine.LineDiscipline.Get` | MP2/module/tuxctl-ld.c:225-242 | returns the smaller of n and what is there, the oldest bytes first, and takes exactly those |
| `TuxLine.LineDiscipline.Gather` | MP2/module/tuxctl-ld.c:295-298 | the packet buffer holds the carry and then bytes from the ring, at most twelve in all |
| `TuxLine.LineDiscipline.ScanPacket` | MP2/module/tuxctl-ld.c:300-312 | the loop delivers the packets and leaves the rest that the specification says |
| `TuxLine.LineDiscipline.SaveRest` | MP2/module/tuxctl-ld.c:314-317 | the leftover bytes, at most two, become the carry |
| `TuxLine.LineDiscipline.DataCallback` | MP2/module/tuxctl-ld.c:286-318 | takes the oldest bytes until they are twelve with the carry or none waits, and the packets delivered so far stay those of all bytes taken so far, and the carry what these leave |
| `TuxLine.LineDiscipline.RcvBuf` | MP2/module/tuxctl-ld.c:160-184 | exactly the bytes that fit are accepted, in order, and what waits and what was taken afterwards are as specified; a detached line changes nothing |
| `TuxLine.LineDiscipline.Accept` | MP2/module/tuxctl-ld.c:170-177 | the loop appends bytes in order, until all are stored or the ring is full at 63 |
| `TuxLine.LineDiscipline.WriteWakeup` | MP2/module/tuxctl-ld.c:189-215 | with room for all that waits, the driver takes all and nothing waits; with less room, but some or none, it takes as many of the oldest as there is room for, and one byte more is gone; with a negative answer nothing changes; so a byte is lost exactly if the room is not negative and less than what waits |
| `TuxLine.LineDiscipline.Drain` | MP2/module/tuxctl-ld.c:203-206 | takes the oldest bytes: none for a negative room, one more than there is room for if more wait than that, otherwise all |
| `TuxTransmit.WakeUpLoses` | MP2/module/tuxctl-ld.c:198-214 | a wake-up loses a byte exactly if the room is not negative and less than what waits, and then it is the one after those there was room for |
| `TuxTransmit.WakeUpMeans` | MP2/module/tuxctl-ld.c:198-214 | what a wake-up does in plain lengths, for a negative room, less room than bytes wait, and room for all |
| `TuxTransmit.AcceptedFits` | MP2/module/tuxctl-ld.c:170-177 | exactly one number of bytes is all of them, or as many as fill the ring up to 63, and that is how many are accepted |
| `TuxTransmit.ByteLost` | MP2/module/tuxctl-ld.c:249-272 | one byte written while the driver has room for none: it is accepted, and gone |
| `TuxTransmit.Conservation` | MP2/module/tuxctl-ld.c:189-272 | over any run every accepted byte was taken by the driver, waits, or was lost in a wake-up that loses one; without such a wake-up the order is kept as well |
| `TuxTransmit.Lossless` | MP2/module/tuxctl-ld.c:189-272 | over any run, what was accepted is what was taken and what waits exactly if no wake-up had room that was not negative and less than what waited |
| `TuxTransmit.RoomForAll` | MP2/module/tuxctl-ld.c:189-272 | after an event whose wake-up comes with room for all that waits, nothing waits and the driver has taken it all |
| `TuxTransmit.TakenAtOnce` | MP2/module/tuxctl-ld.c:189-272 | over a run of such events, from an empty ring, the driver has taken exactly what was accepted, and nothing waits |
| `TuxReceive.ConservationIn` | MP2/module/tuxctl-ld.c:160-184 | over any run, as many bytes wait or were taken as arrived, less those that found no room, and without such bytes the order is kept as well |
| `TuxReceive.NothingDropped` | MP2/module/tuxctl-ld.c:160-184 | over any run, all bytes that arrived wait or were taken, in order, exactly if no interrupt brought more than there was room for |
| `TuxReceive.BurstDropped` | MP2/module/tuxctl-ld.c:160-184 | one interrupt with 64 bytes, on an empty ring: the last byte is dropped |
| `TuxReceive.CallbackTakes` | MP2/module/tuxctl-ld.c:286-298 | a callback takes the oldest bytes until they are twelve with the carry or none waits |
| `TuxReceive.ShortBursts` | MP2/module/tuxctl-ld.c:160-318 | after any run of interrupts of at most ten bytes, from an empty ring, nothing waits and everything that arrived was taken |
| `TuxLine.LineDiscipline.Put` | MP2/module/tuxctl-ld.c:249-272 | returns exactly the number of bytes not queued, which is 0 or the ring was filled up; then the wake-up as above; when it returns 0, all bytes were taken or wait exactly if the wake-up lost none |
| `TuxLine.LineDiscipline.Happen` | MP2/module/tuxctl-ld.c:160-272 | one event moves both sides by exactly one step of the specification |
| `TuxLine.LineDiscipline.Serve` | MP2/module/tuxctl-ld.c:160-318 | over any run of interrupts, writes and wake-ups both rings are queues, what waits and what was taken on either side is exactly what the events bring and take, and the packets are exactly the framed triples of the bytes taken; every byte that arrived waits or was taken exactly if no interrupt brought more bytes than there was room for, and nothing accepted for transmission is missing exactly if nothing was before and no wake-up of the run lost a byte |
| `ConsoleText.LayoutWrapped` | MP3_FinalProj_Kernel/student-distrib/lib.c:241-253 | no line is longer than the screen is wide, and the last one has room |
| `ConsoleText.LayoutKeepsText` | MP3_FinalProj_Kernel/student-distrib/lib.c:188-255 | wrapping loses no character and puts none out of order |
| `ConsoleText.LayoutIs` | MP3_FinalProj_Kernel/student-distrib/lib.c:188-255 | the lines are the paragraphs of the text, one after another, each cut into rows of 80 and a shorter one: a line end closes exactly one line, and apart from these only a full row does |
| `ConsoleText.CutIs` | MP3_FinalProj_Kernel/student-distrib/lib.c:238-253 | character k of a paragraph is in row k / 80 at column k % 80, and n characters take n / 80 + 1 rows, all but the last full |
| `ConsoleText.ParagraphsAre` | MP3_FinalProj_Kernel/student-distrib/lib.c:194-202 | no paragraph holds a line end, and there is one more of them than line ends |
| `ConsoleText.ParagraphsJoin` | MP3_FinalProj_Kernel/student-distrib/lib.c:188-255 | together the paragraphs are the text without its line ends |
| `ConsoleText.LineEndStarts` | MP3_FinalProj_Kernel/student-distrib/lib.c:194-202 | a line end puts one empty line behind the lines there are |
| `ConsoleText.Unbroken` | MP3_FinalProj_Kernel/student-distrib/lib.c:238-253 | a text without line ends has character k in line k / 80 at column k % 80 |
| `ConsoleText.PlainCursor` | MP3_FinalProj_Kernel/student-distrib/lib.c:188-255 | a text without line ends that is shorter than the screen leaves the cursor at the cell behind it |
| `ConsoleText.PlainScreen` | MP3_FinalProj_Kernel/student-distrib/lib.c:188-255 | and the screen shows it cell by cell, with blanks behind it |
| `ConsoleText.NewLineShows` | MP3_FinalProj_Kernel/student-distrib/lib.c:194-202 | a new line leaves the screen alone while there is room below, and else moves every row up by one |
| `ConsoleText.AddCharShows` | MP3_FinalProj_Kernel/student-distrib/lib.c:238-253 | a character changes exactly the cell at the cursor |
| `ConsoleText.BackgroundKept` | MP3_FinalProj_Kernel/student-distrib/naman_page.c:222-259 | a terminal that is not brought to the foreground during a run keeps its transcript |
| `Console.Screen.constructor` | MP3_FinalProj_Kernel/student-distrib/lib.c:188-255 | three cleared screens show three empty transcripts |
| `Console.Screen.UpdateCursor` | MP3_FinalProj_Kernel/student-distrib/lib.c:380-389 | the hardware cursor position read back is the one written |
| `Console.Screen.WriteSwitch` | MP3_FinalProj_Kernel/student-distrib/lib.c:176-181 | writing goes on where the hardware cursor is |
| `Console.Screen.ScrollDown` | MP3_FinalProj_Kernel/student-distrib/lib.c:339-364 | every row becomes the one below it, the last one blank; the other pages are untouched |
| `Console.Screen.SettleRow` | MP3_FinalProj_Kernel/student-distrib/lib.c:196-201 | leaving the screen at the bottom scrolls it, otherwise the row is as it should be |
| `Console.Screen.PutChar` | MP3_FinalProj_Kernel/student-distrib/lib.c:188-255 | the screen goes on showing the last 25 rows of the wrapped transcript, which `LayoutIs` describes, with the cursor after it in variables and hardware |
| `Console.Screen.Backspace` | MP3_FinalProj_Kernel/student-distrib/lib.c:204-237 | stops at a prompt sign; otherwise the cursor goes back one cell, or from the first column back over everything vacant, and exactly that cell is erased |
| `Console.Screen.SkipVacant` | MP3_FinalProj_Kernel/student-distrib/lib.c:217-229 | the blank-skipping loop ends at the last cell before the cursor that is not vacant, or at the origin |
| `Console.Screen.RemapMem` | MP3_FinalProj_Kernel/student-distrib/naman_page.c:197-210 | the video page goes behind the old terminal, the new terminal's page on view, the others stay |
| `Console.Screen.SwapCursors` | MP3_FinalProj_Kernel/student-distrib/naman_page.c:229-233 | the old cursor is saved and the new terminal's put in its place |
| `Console.Screen.SwitchTerminal` | MP3_FinalProj_Kernel/student-distrib/naman_page.c:222-259 | every terminal goes on showing its own transcript, with its own cursor |
| `Console.Screen.Output` | MP3_FinalProj_Kernel/student-distrib/lib.c:188-255 | output adds to the foreground terminal's transcript and leaves the other terminals untouched |
| `Console.Screen.Run` | MP3_FinalProj_Kernel/student-distrib/naman_page.c:222-259 | over any run of output and switches from cleared screens, each terminal shows the last 25 rows of its own transcript |
| `FileData.BytesInBlock` | MP3_FinalProj_Kernel/student-distrib/file_system_driver.c:110-116 | the flat bytes of a file inside one block are a slice of that block |
| `FileData.Delivers` | MP3_FinalProj_Kernel/student-distrib/file_system_driver.c:96-142 | from any offset up to the end of the file, at least everything due is put in the buffer, and never more than was asked for |
| `FileData.FitsPastEnd` | MP3_FinalProj_Kernel/student-distrib/file_system_driver.c:105-137 | past the end of the file, for any 32-bit position and length, a read keeps inside its buffer exactly when it asks for at least the rest of the block, or its end wraps around to a position in the file |
| `FileData.PastEndAnswer` | MP3_FinalProj_Kernel/student-distrib/file_system_driver.c:105-141 | past the end of the file, for any 32-bit position and length, a read that keeps inside its buffer answers 0, as promised, exactly if it asks for just the rest of the block and that does not end at 2 to the 32 |
| `FileData.ReturnExact` | MP3_FinalProj_Kernel/student-distrib/file_system_driver.c:96-142 | the answer is the number of bytes due exactly when they are in one block, or the last copy by chance has that size |
| `FileData.ReturnSound` | MP3_FinalProj_Kernel/student-distrib/file_system_driver.c:96-142 | the answer is at most the number of bytes due exactly when the read ends inside the file, or stays in one block, or its last copy is no longer than what was due |
| `FileData.ReturnProgress` | MP3_FinalProj_Kernel/student-distrib/file_system_driver.c:96-142 | a read answers 0 exactly at the end of the file |
| `FileData.AnswerInBuffer` | MP3_FinalProj_Kernel/student-distrib/file_system_driver.c:96-142 | the answer is a number of bytes that are in the buffer |
| `FileData.SoundReads` | MP3_FinalProj_Kernel/student-distrib/syscall.c:325-387 | reads of any sizes that keep to the file hand over a stretch of it with nothing lost, doubled or made up |
| `FileData.AlignedRead` | MP3_FinalProj_Kernel/student-distrib/syscall.c:325-387 | a read of a size that divides 4096 answers exactly what is due, and keeps the position aligned or at the end |
| `FileData.AlignedReads` | MP3_FinalProj_Kernel/student-distrib/syscall.c:325-387 | repeated reads of a size that divides 4096 hand over the whole file and then nothing, for ever |
| `FileData.ChunksExact` | MP3_FinalProj_Kernel/student-distrib/syscall.c:325-387 | reading in chunks of one size answers what is due on every read exactly when the file is one block, or the size divides 4096, or the file has one particular length |
| `FileData.Overshoot` | MP3_FinalProj_Kernel/student-distrib/file_system_driver.c:129-138 | a file of 4200 bytes in chunks of 3000: the second read answers 1904 with 1200 bytes left, and the position goes past the end, where the same read would overrun its buffer and one of 4096 bytes answers 808 |
| `FileSystem.Lookup` | MP3_FinalProj_Kernel/student-distrib/file_system_driver.c:48-62 | an entry whose name is the requested one, or none if there is no such entry |
| `FileSystem.LookupFirst` | MP3_FinalProj_Kernel/student-distrib/file_system_driver.c:48-62 | it is the first such entry |
| `FileSystem.FreeFrom` | MP3_FinalProj_Kernel/student-distrib/syscall.c:555-568 | the lowest descriptor that is not busy |
| `FileSystem.OpenConsistent` | MP3_FinalProj_Kernel/student-distrib/syscall.c:247-312 | open keeps every busy descriptor working and within its file, and fails exactly when there is no such name or no free descriptor |
| `FileSystem.OpenMeans` | MP3_FinalProj_Kernel/student-distrib/syscall.c:247-312 | the lowest free descriptor is claimed, and stands at position 0 of what the first entry of that name names, with the functions of its type and for a regular file its index node; every other descriptor is as it was; without such an entry or descriptor nothing changes |
| `FileSystem.CloseConsistent` | MP3_FinalProj_Kernel/student-distrib/syscall.c:468-483 | close keeps every busy descriptor working and within its file; it succeeds exactly on a busy descriptor from 2 to 7, which is then free; all others are as they were |
| `FileSystem.OpenThenClose` | MP3_FinalProj_Kernel/student-distrib/syscall.c:247-483 | closing what was opened gives the number back, with every other descriptor as it was |
| `FileSystem.ReadConsistent` | MP3_FinalProj_Kernel/student-distrib/syscall.c:325-387 | a read changes at most the position of its own descriptor, and keeps every busy descriptor working |
| `FileSystem.ReadFails` | MP3_FinalProj_Kernel/student-distrib/syscall.c:325-387 | a read fails exactly without a buffer or a count, on no busy descriptor or on the display, on a file with a bad index node, or when the function of another kind of descriptor does; and then changes nothing |
| `FileSystem.ReadMoves` | MP3_FinalProj_Kernel/student-distrib/syscall.c:325-387 | otherwise the position goes behind what was answered for a file, behind one entry more for a directory, and to 0 for the clock |
| `FileSystem.ReadInFiles` | MP3_FinalProj_Kernel/student-distrib/syscall.c:325-387 | if no descriptor is past the end of its file, a read keeps it so exactly when it does not answer more than was due |
| `FileSystem.InFileBounded` | MP3_FinalProj_Kernel/student-distrib/syscall.c:325-387 | a read from a position of the file keeps inside its buffer |
| `FileSystem.DueDelivered` | MP3_FinalProj_Kernel/student-distrib/file_system_driver.c:96-142 | the buffer starts with the slice of the file that was due |
| `FileRuns.CallKeeps` | MP3_FinalProj_Kernel/student-distrib/syscall.c:247-483 | an open, a close or a read keeps every descriptor within its file exactly if, for a read of a file, it ends inside the file, or stays in one block, or its last copy is no longer than what was left |
| `FileRuns.NeverPastExactly` | MP3_FinalProj_Kernel/student-distrib/syscall.c:247-483 | over any run of calls on several descriptors, none is ever past the end of its file exactly if every call meets that condition |
| `FileRuns.InterleavedReads` | MP3_FinalProj_Kernel/student-distrib/syscall.c:247-483 | over any such run, what each open descriptor has handed over since it was opened is its own file up to its position, with nothing lost, doubled or taken from another file |
| `FileRuns.NamedReads` | MP3_FinalProj_Kernel/student-distrib/syscall.c:247-483 | from the call that opens a name until the descriptor is closed, whatever calls come in between, what the descriptor has handed over is the start of the file that the first directory entry of that name names |
| `FileRuns.ChunkedReads` | MP3_FinalProj_Kernel/student-distrib/syscall.c:247-483 | when each descriptor is read in chunks of a size that divides 4096, every read of any run answers exactly what is due, and meets the condition |
| `FileSystem.Process.constructor` | MP3_FinalProj_Kernel/student-distrib/syscall.c:133-158 | a new process has its two terminal descriptors, and the other six are free |
| `FileSystem.Process.CompareName` | MP3_FinalProj_Kernel/student-distrib/lib.c:626-640 | zero exactly when the entry's padded name is the requested one |
| `FileSystem.Process.ReadDentryByName` | MP3_FinalProj_Kernel/student-distrib/file_system_driver.c:38-65 | finds the first entry of exactly that name; nothing for a name longer than 32 bytes |
| `FileSystem.Process.FreeIdxFd` | MP3_FinalProj_Kernel/student-distrib/syscall.c:555-568 | claims the lowest descriptor that is not busy, and changes no other |
| `FileSystem.Process.SysOpen` | MP3_FinalProj_Kernel/student-distrib/syscall.c:247-312 | the answer is the lowest free descriptor, which stands at the start of what the first entry of that name names, a regular file at position 0 of its own index node; every other descriptor is as it was; -1 exactly without such an entry or descriptor |
| `FileSystem.Process.SysClose` | MP3_FinalProj_Kernel/student-distrib/syscall.c:468-483 | the answer and all eight descriptors are those of the specification |
| `FileSystem.Process.ReadAcross` | MP3_FinalProj_Kernel/student-distrib/file_system_driver.c:121-138 | across block boundaries the buffer gets exactly the flat bytes asked for, and the answer is the size of the last copy |
| `FileSystem.Process.ReadData` | MP3_FinalProj_Kernel/student-distrib/file_system_driver.c:96-142 | -1 exactly for a bad index node; otherwise the due bytes of the buffer are the slice of the flat file, the rest of the buffer is as specified, and so is the answer |
| `FileSystem.Process.FileRead` | MP3_FinalProj_Kernel/student-distrib/file_system_driver.c:215-229 | the same for a descriptor, -1 without a name |
| `FileSystem.Process.SysRead` | MP3_FinalProj_Kernel/student-distrib/syscall.c:325-387 | the answer and all eight descriptors are those of the specification, also past the end of the file as long as the read keeps inside its buffer; from a position of the file the due slice is in the buffer |
| `FileSystem.Process.ReadChunk` | MP3_FinalProj_Kernel/syscalls/ece391cat.c:21 | a read of 1024 bytes from an aligned position answers and delivers exactly what is due |
| `FileSystem.Process.CopyFile` | MP3_FinalProj_Kernel/syscalls/ece391cat.c:21-28 | the loop ends with the whole file written, or with the message that it cannot be read |
| `FileSystem.Process.Cat` | MP3_FinalProj_Kernel/syscalls/ece391cat.c:6-31 | writes exactly the contents of the file that the first entry of that name names, of whatever length and however scattered; or the message for a name or descriptor that is missing (status 2), or for an entry with a bad index node (status 3) |
| `Numerals.ItoaRoundTrip` | MP3_FinalProj_Kernel/student-distrib/lib.c:398-428 | evaluating the digits gives the number back in every radix from 2 to 36, all are digits of the radix, and the first is not 0 unless the number is |
| `Numerals.ItoaFits` | MP3_FinalProj_Kernel/student-distrib/lib.c:398-428 | no 32-bit number needs more than 32 digits |
| `Numerals.SymbolIs` | MP3_FinalProj_Kernel/student-distrib/lib.c:399 | the digits are 0 to 9 and then A to Z |
| `Numerals.StrLen` | MP3_FinalProj_Kernel/student-distrib/lib.c:453-458 | the number of bytes before the NUL |
| `Numerals.StrRev` | MP3_FinalProj_Kernel/student-distrib/lib.c:434-447 | the string is reversed in place, and nothing else in the buffer changes |
| `Numerals.ItoaDigits` | MP3_FinalProj_Kernel/student-distrib/lib.c:408-427 | the digits come out lowest first and are turned round in place |
| `Numerals.Itoa` | MP3_FinalProj_Kernel/student-distrib/lib.c:398-428 | the buffer holds the digits and a NUL, and is otherwise as it was |
| `Numerals.Padded` | MP3_FinalProj_Kernel/student-distrib/lib.c:91-95 | zeros in front do not change a number |
| `Numerals.PrintHex` | MP3_FinalProj_Kernel/student-distrib/lib.c:81-100 | exactly eight hexadecimal digits are put out, and they are the number |

## Left out

- MakeMaze: that random values suffice with probability 1 is not stated, only that some do; and what the array holds
  when they run out is not stated.
- Which walls the scan of the repair takes down is not given as a function of the random values.
- Backspace: at the origin of the screen the source reads the cell before video memory, so a backspace there is not
  modelled; nor is the transcript after a backspace, since an erased cell holds NUL and not a blank.
- ReadData: a read that starts past the end of the file is modelled only where it keeps inside its buffer
  (`FileData.FitsPastEnd` says when); block numbers past the index node's table, and bytes behind the end of the file,
  are whatever memory holds, given as functions.
- SysRead: the read functions for the keyboard, the clock and directories are a parameter, their answer; what they put
  in the buffer is not modelled. A read past the end of the file that would overrun its buffer is not modelled either.
- Cat: the terminal is taken to accept every byte that is written to it, and the argument of the program is a
  parameter.
- The element read past the array of open directions before the first request (`mazegame.c:621`) is an arbitrary value.
- The clipping arithmetic that the source repeats in each drawing function is one method, `View.Clip`.
- Video memory and the memory fences are arrays; the VGA, palette and font registers are not modelled.
- The callbacks with which the view asks for lines of the maze are direct calls.
- The serial driver takes exactly as many of the bytes it is handed as it said it had room for.
- Ring operations are atomic, as under the spin lock of the source.
- Ports, interrupts, the page tables and their hardware; the copies written in assembly are plain copies.
- The status bar, the palette changes, the pictures of the letters of a text, and the real-time clock.
- Fruits that appear during play (`add_a_fruit`), which the game never calls.
- The keyboard and controller threads: the direction a tick finds requested is arbitrary.
- `background_putc` and the scheduler, and `clear` between terminal switches, which leaves the hardware cursor behind.
- The keyboard buffer that a terminal switch saves, and the process it switches to.
- The parsing of the disk image (`init_filesystem`); directory entries are taken to have one of the three file types.
- Creating and ending processes, apart from the descriptors of a new one.

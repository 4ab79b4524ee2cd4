# A verified model of the text-adventure server's core

This project models, in Dafny, the sequential core of a small Go
text-adventure server: the text-map compiler that turns a character map
into a graph of rooms, the pairing of exits between rooms, room occupancy
and rendering, command-alias lookup, a mob's per-pulse command step, and
the world's pulse registry. It also models the older single-file version
of rooms and players kept in `main.go`.

Layout, one Dafny file per Go file:

- `directions.dfy`: the 4-bit direction flags (`Direction`, a byte), their
  names, their inverses, the direction between two cells and the neighbour
  indices of a flag set.
- `mapreader.dfy`: row splitting over an in-memory character sequence,
  padding and flattening, index and coordinate conversion, symbol classes,
  edge flags, and the `MapWorker` class that builds rooms, records links,
  joins them and lists the rooms.
- `exits.dfy`: the `Exit` class, `connectRooms` and
  `connectRoomsCardinally`, and the graph invariants they keep: every exit
  pairs with an exit back (`Symmetric`), and cardinal exits carry the
  names of opposite directions (`CardinallyNamed`).
- `rooms.dfy`: the `Room` class with entering, leaving, exit listing,
  contents listing and the rendered description.
- `commands.dfy`: commands, the basic command set and `parseInput`.
- `player.dfy`: the `Mob` class, with `spawn` and one pulse of its loop as
  `Tick`.
- `world.dfy`: the `World` class, a registry of abstract pulse handles.
- `snapshot.dfy`: module `MainSnapshot`, the `room`, `linkRooms`, `newRoom`
  and `player.move` of `main.go`, whose types are separate from the rest.
- `wrappers.dfy`: `Option` and `Result`.

Design choices:

- Pulses are abstract handles `Pulse(id)`. Closing a pulse adds it to the
  world's `closed` set.
- A pulse of a mob's loop is an explicit `Tick` call.
- Command closures are the datatype `Cmd` of action descriptors. `Execute`
  performs their state effects.
- Where Go ranges over a map (the endpoint order in `buildExit`, the room
  order in `getRooms`), the model picks an element with `:|`. Contracts
  hold for every order.
- Go's truncating `/` and `%` are written out as `GoQuo` and `GoRem`, so
  `getCoords` is modelled for negative indices too.

Behaviour of the source that a reader might not expect, and that the model
keeps:

- `stopWorld` does not clear the registry, so a second stop would close
  the pulses again. `World.StopWorld` therefore requires that no pulse has
  been closed yet.
- `roomEmit` selects users whose mob's room has the same *name* as the
  target room, not the same room.
- `leaveRoom` splices inside a loop that ranges over the contents, so
  after a removal the loop reads the shifted slice. With unique names this
  removes the one occupant of that name, which is what the model states.
  With two occupants of one name the result depends on where they stand:
  `[A(x), B(x), C(y)]` leaving as x ends as `[B, C]`, while `[A(x), B(x)]`
  slices `contents[2:1]` and panics. The model requires unique names.
- The exit action calls `enterRoom` on the destination but never
  `leaveRoom` on the old room, so the mob stays listed there as well.
- The registry is a slice that grows by one per registration, not a map
  keyed by entity.

## Model

| member | source | states |
|---|---|---|
| Compose | directions.go:10-17 | the flag built from four booleans stays within `DirMask` and has exactly the requested bits |
| DirToString | directions.go:19-31 | the name is "NaD" exactly when the flag is not one of the four cardinals, and is never empty |
| DirToCommandStrings | directions.go:33-36 | two aliases: the full name and the one-letter string of its first character |
| InvertDir | directions.go:38-50 | the inverse is cardinal exactly when the input is; anything else maps to `BadDir` |
| InvertDirInvolution | directions.go:38-50 | on a cardinal, inverting twice gives it back and inverting once changes it |
| CommandStringsDistinct | directions.go:19-36 | different cardinals get different full names and different one-letter aliases |
| CardinalDirBetween | directions.go:53-71 | the result is a cardinal or `BadDir`, and it is `BadDir` exactly when the difference is not a multiple of the width and is at least the width |
| DirBetweenNeighbours | directions.go:53-90 | for width at least 2, the direction from a cell to its neighbour in direction d is d, and the way back is the inverse of d |
| DirBetweenOnOneColumn | directions.go:53-71 | on a one-column map every difference is a multiple of the width, so the next cell is South and the previous is North |
| FlagToIndicies | directions.go:75-90 | a cardinal is a key exactly when its bit is set, and it maps to that neighbour (index minus width, plus one, plus width, minus one) |
| FlagToIndex | directions.go:92-98 | succeeds exactly for a single cardinal flag, giving that neighbour; otherwise fails with "No index in that direction." |
| GenerateExitAction | commands.go:51-59 | the action enters the given room |
| LowerIdempotent | commands.go:69 | lower-casing twice is lower-casing once |
| HasAlias | commands.go:68-72 | a command answers the input exactly when one of its aliases equals the input after lower-casing both |
| ParseInput | commands.go:66-75 | with no matching command the fallback action; otherwise the action of the first matching command in list order |
| ParseInputIgnoresCase | commands.go:66-75 | inputs equal after lower-casing select the same action |
| LookCommand | commands.go:15-23 | `look` shows the location and answers exactly "look" and "l" in any case |
| ExitCommand | commands.go:25-33 | `exits` lists the exits and answers exactly "exits", "doors" and "dirs" in any case |
| QuitCommand | commands.go:35-44 | `quit` stops the world and answers exactly "quit" and "q" in any case |
| BasicCommands | commands.go:61-64 | three commands, against which every input selects look, exits, quit or the fallback, by its lower-cased form |
| BasicCommandsDispatch | commands.go:61-75 | look, exits and quit in that order select, for one input, the action its lower-cased form names, or the fallback |
| Exit.constructor | exits.go:10-11 | a new exit has the given names and room and no destination yet |
| Exit.GetDestination | exits.go:22-24 | the destination is the room that owns the paired exit |
| Exit.GetPrimaryName | exits.go:26-31 | the first alias, or "Void" for an exit without aliases |
| Exit.GenerateCommands | exits.go:33-38 | the command has the exit's aliases and enters the exit's destination room |
| ConnectRooms | exits.go:9-16 | two fresh exits that point at each other are appended, one to each room; a graph whose exits pair up still does |
| ConnectRoomsCardinally | exits.go:18-20 | as `ConnectRooms`, with the direction's aliases on the start side and the inverse's on the end side; a cardinal link keeps exits named by opposite directions |
| CardinalPrimaryName | exits.go:26-31 | an exit named by a direction's aliases has that direction's full name as its primary name |
| Room.Unlinked | rooms.go:56-58 | the given texts, and no exits, commands or contents |
| Room.Generic | rooms.go:60-62 | the generic room's fixed name and description, empty otherwise |
| Room.Linked | rooms.go:64-69 | the given exits, in order, and one command per exit that enters that exit's destination |
| Room.GetDescription | rooms.go:18-21 | the name between bars, then the description between two rules of dashes as long as the description |
| Room.GetExitCommands | rooms.go:23-29 | one command per exit, in order, with the exit's aliases and entering its destination |
| Room.UpdateCommands | rooms.go:71-73 | the room's commands become those of its exits |
| Room.ListExits | rooms.go:31-40 | each exit's primary name followed by ", ", after "Visible Exits: ", or the fixed sentence when there are none |
| Room.ShowContents | rooms.go:42-50 | empty for an empty room, otherwise "You see:" and one line per occupant name, in order |
| Room.DisplayRoom | rooms.go:52-54 | description, contents and exit listing, joined by newlines |
| Room.EnterRoom | rooms.go:75-82 | the mob's location becomes the room and the mob is appended to the contents; succeeds |
| Room.LeaveRoom | rooms.go:84-93 | with unique names, the contents lose the occupant named like the mob, the others kept in order; succeeds |
| Repeat | rooms.go:19 | n copies of the character |
| ExitListSnoc | rooms.go:33-35 | one more exit adds its primary name and ", " at the end |
| ExitListAppend | rooms.go:33-35 | the listing of two exit lists end to end is the two listings end to end |
| NamesOf | rooms.go:46-48 | the occupants' names, position by position |
| ContentsLinesAppend | rooms.go:46-48 | the contents lines of two lists end to end are the two listings end to end |
| RemoveNamed | rooms.go:84-93 | removes exactly one occupant when one has the name, nothing otherwise, and never adds anyone |
| FirstNamed | rooms.go:85-86 | the first position holding the name, or the length exactly when no occupant has it |
| RemoveNamedAt | rooms.go:84-93 | with unique names, removing by the name of the occupant at a position splices out exactly that position |
| NameInRemoveNamed | rooms.go:84-93 | with unique names, nobody of that name remains, and leaving a second time changes nothing |
| Mob.constructor | player.go:26-32 | empty name, the basic commands, the generic description, and no room, world, pulse or queue |
| Mob.Register | player.go:22-24 | the mob keeps the given pulse |
| Mob.Spawn | player.go:34-50 | the name is set; it fails exactly when the world is not running, and then nothing else changes; on success one fresh pulse is registered and kept, and the mob stands in the start room, appended to its contents |
| Mob.Execute | commands.go:15-59 | an exit action moves the mob into its room, appended to the contents; quit stops the world and closes every registered pulse; other actions move nothing; every action returns true |
| Mob.Tick | player.go:64-79 | one pulse pops and runs the queue's head, or does nothing on an empty queue, and leaves exactly the rest of the queue |
| Step | player.go:67-75 | no action exactly for an empty queue, and the action run followed by the queue left is the old queue |
| PulsesAreFifo | player.go:64-79 | k pulses run the first min(k, n) queued actions in enqueue order and leave the others |
| World.constructor | world.go:16-21 | the given rooms, not running, nothing registered or closed |
| World.GetStartRoom | world.go:23-25 | the start room is one of the world's rooms |
| World.RegisterThing | world.go:27-38 | succeeds exactly while running, appending one fresh pulse and giving it to the registrant; otherwise fails with the fixed message and changes nothing |
| World.StartWorld | world.go:40-43 | the world is running |
| World.StopWorld | world.go:45-52 | the world is not running and every registered pulse is closed |
| World.RoomEmitRecipients | world.go:65-73 | the recipients are the users whose mob stands in a room of the target room's name, in user order |
| AtRoom | world.go:65-73 | everyone selected is a user in a room of that name, and every such user is selected |
| RowsFromCount | mapreader.go:36-56 | splitting gives one more row than there are newlines |
| RowsFromRejoin | mapreader.go:36-56 | the rows put back together are the started row followed by the input's symbols, newlines dropped |
| RowsRejoin | mapreader.go:36-56 | the rows put back together are the input's symbols, and there are newlines plus one of them |
| MaxLen | mapreader.go:49-51 | no row is longer, and some row has that length |
| PadStringArray | mapreader.go:66-71 | the row is kept as a prefix, the length is the larger of the row's and the width, and the rest is empty strings |
| PadArrayStringArray | mapreader.go:74-79 | one padded row per row, in order |
| CombineArrays | mapreader.go:82-87 | the rows concatenated in order |
| FlattenLength | mapreader.go:82-87 | the concatenation is as long as the rows together |
| FlattenRect | mapreader.go:82-87 | rows of one width flatten to width times height cells, the cell at (x, y) sitting at `getIndex` |
| SplitRows | mapreader.go:34-56 | the loop yields the rows of the input split at each newline, and the width is the longest row's length |
| ReadMap | mapreader.go:32-62 | height is newlines plus one, width the longest row, the area width times height, and each cell the row's symbol or "" past its end |
| PaddedArea | mapreader.go:57 | padding rows to the widest and flattening puts each symbol at its `getIndex`, and "" in the padding |
| GoQuo | mapreader.go:92 | Go's quotient truncates toward zero: it has the dividend's sign, and what is left over has that sign too and is smaller than the divisor |
| GoRem | mapreader.go:92 | Go's remainder: between 0 and the divisor for a non-negative dividend, non-positive for a negative one |
| GetCoords | mapreader.go:91-93 | a non-negative index lies in a column inside the width, on a row at or below the first |
| GetIndex | mapreader.go:97-99 | row-major: a cell inside the width on row y lies among the width indices of row y |
| IndexOfCoords | mapreader.go:91-99 | `getIndex(getCoords(i))` is i |
| CoordsOfIndex | mapreader.go:91-99 | `getCoords(getIndex(c))` is c for a column inside the width |
| CoordsInGrid | mapreader.go:91-93 | an index inside the area has coordinates inside the grid |
| IsEmpty | mapreader.go:101-105 | only a blank or a space, so at most one character |
| IsExit | mapreader.go:107-112 | only the vertical bar or "-": one character, never blank |
| IsRoom | mapreader.go:114-118 | every symbol except the blank, the space, the vertical bar and "-" names a room |
| SymbolClassesPartition | mapreader.go:103-118 | every symbol is exactly one of empty, exit or room |
| GetEdgeFlags | mapreader.go:142-156 | North exactly on the top row, East on the last column, South on the bottom row, West on the first column; within `DirMask` |
| ExitFlags | mapreader.go:199-202 | "|" looks North and South, any other exit symbol East and West |
| ExitEnds | mapreader.go:198-206 | as written, a vertical bar looks up the cells one row up and one row down, any other exit symbol the cells left and right, with no edge check |
| MaskedColumnShape | mapreader.go:142-156 | with edge directions removed, a vertical bar looks up the cell above unless it is on the first row and the cell below unless it is on the last, and nothing else |
| MaskedRowShape | mapreader.go:142-156 | with edge directions removed, a "-" looks up the cell to the right unless it is in the last column and the cell to the left unless it is in the first, and nothing else |
| ExitAlwaysHasTwoEnds | mapreader.go:198-207 | as written, every exit symbol yields two end indices, whatever its position |
| EdgeExitWrapsToNextRow | mapreader.go:198-212 | as written, a "-" in the last column links the cell before it to the first cell of the next row |
| MaskedLinkAdjacent | mapreader.go:198-212 | with edge directions removed, a link's ends are inside the map on the exit's row or column, one step either side, with a cardinal direction |
| MapWorker.constructor | mapreader.go:172-180 | the given map, no rooms and no links |
| MapWorker.BuildRoom | mapreader.go:192-196 | a fresh generic room (the fixed generic description, no exits, no commands, no contents) named by the cell's symbol is stored at the index; nothing else changes |
| MapWorker.BuildExitAsWritten | mapreader.go:198-212 | as written: a link between the two neighbour indices, in either order, with the direction between them, is appended |
| MapWorker.BuildExit | mapreader.go:198-212 | as intended: a link is appended only when both neighbours on the exit's axis are inside the map; otherwise the links are unchanged |
| MapWorker.BuildCells | mapreader.go:123-129 | after the scan there is one distinct fresh generic room per room cell, named by its symbol and with no exits; every exit cell with two (edge-masked) ends has its link recorded, and every recorded link was recorded by such a cell, in cell order; for every cell, the number of link ends at it among the links between two rooms equals the number of exit cells between two rooms that have it as an end |
| MapWorker.BuildCell | mapreader.go:124-128 | one cell of the scan keeps the scan's invariant for one more cell: generic rooms for the room cells so far, links recorded by exactly the exit cells so far, and link ends at each cell counted by the exit cells so far |
| MapWorker.RoomCell | mapreader.go:124-125 | a room cell adds one fresh generic room for that cell, keeps every earlier room and every link, and adds no link end |
| MapWorker.ExitCell | mapreader.go:126-127 | an exit cell with two (edge-masked) ends appends exactly one link, recorded by that cell; any other exit cell keeps the links unchanged; the rooms are untouched, and the link ends at each cell grow by one exactly when this cell joins two rooms and has that cell as an end |
| MapWorker.JoinLinks | mapreader.go:182-190 | from rooms without exits, every link whose ends are both built rooms and whose direction is not `BadDir` is connected both ways, and every exit any room ends up with is one of the two exits of such a link; each room ends with exactly one exit per end of such a link at its cell (two for a link from the cell to itself); exits pair up, and only exit lists change |
| MapWorker.JoinStep | mapreader.go:182-190 | one iteration keeps the earlier links joined, keeps every exit an exit of some link joined so far, and adds to each room one exit per end of this link at its cell when the link qualifies, none otherwise; only exit lists change |
| MapWorker.JoinRecorded | mapreader.go:183-188 | one link joined keeps the earlier links' exits where they were, a qualifying link's two new exits sit at the ends of its rooms' exit lists, and each room gains one exit per end of the link at its cell (none for a link that does not qualify); only exit lists change |
| MapWorker.JoinLink | mapreader.go:183-188 | a qualifying link appends exactly one exit to its start room and one to its end room (two to a room joined to itself) and changes no other room; any other link changes no room; so each room's exit count grows by the number of the link's ends at its cell; exits still pair up, and only exit lists change |
| MapWorker.GetRooms | mapreader.go:214-219 | each built room is listed once, in some order |
| MapWorker.ExitsJoined | mapreader.go:120-133 | once the links are joined, every exit cell between two room cells connects them both ways |
| MapWorker.ExitsFromCells | mapreader.go:120-133 | once the links are joined, every exit of every room comes from an exit cell whose two ends it joins |
| LinkRecorded | mapreader.go:207-211 | appending an exit cell's link keeps the earlier links where they were and records the new one |
| CellSnoc | mapreader.go:126-127 | a link recorded by exit cell i, appended after the links of earlier cells, keeps every link traced to its own cell, in cell order |
| CellsPast | mapreader.go:124-128 | a cell that records no link keeps every link traced to an earlier cell |
| MapWorker.BlankCell | mapreader.go:123-128 | a cell that is neither a room nor an exit builds nothing, records no link and adds no link end |
| ShareOfCell | mapreader.go:182-212 | the link recorded by an exit cell puts one end at a cell exactly when the exit cell joins two rooms and has that cell as a masked end, and none otherwise |
| DegreeStep | mapreader.go:123-129 | scanning one more cell keeps the link ends at every cell equal to the count of exit cells so far that join two rooms and end there |
| DegreeNoExit | mapreader.go:123-128 | a cell that is not an exit adds no link end to any cell |
| ListedOnce | mapreader.go:214-219 | a listing of a map's entries in a repetition-free key order holds each room exactly once |
| BuildRooms | mapreader.go:120-133 | one distinct fresh generic room per room cell, named by its symbol, each listed exactly once; exits pair up with cardinal names; every exit cell between two rooms joins them both ways, every exit of every room comes from such an exit cell, and each room has exactly as many exits as there are exit cells between two rooms next to it |
| BuildRoomsWithoutExitCells | mapreader.go:120-133 | on a map without exit cells every room comes back without exits |
| BuildRoomsCorridor | mapreader.go:120-133 | on the one-row map `A-B` there are two rooms, each with exactly one exit |
| MainSnapshot.AntiDir | main.go:31-47 | a way back exists exactly for the six recognised words, and it is another recognised word |
| MainSnapshot.AntiDirInvolution | main.go:32-44 | the way back of the way back is the original word |
| MainSnapshot.Room.constructor | main.go:53-55 | the given texts and an empty exit map |
| MainSnapshot.LinkRooms | main.go:30-51 | a recognised word sets the origin's exit that way to the destination and the destination's way-back exit to the origin, keeping every other exit; any other word fails with "Direction not recognised!" and changes nothing |
| MainSnapshot.Player.constructor | main.go:62-65 | the given room and name |
| MainSnapshot.Player.Move | main.go:67-75 | moves along the room's exit of that name when there is one, and stays otherwise |
| MainSnapshot.WalkThereAndBack | main.go:30-75 | after a successful link, moving that way and then the way back returns the player to the origin |

## Left out

- The heartbeat goroutines (`World.beat`, the `go m.beat()` launch), channel sends and closes, and every mutex: concurrency. A pulse is an explicit `Mob.Tick` call, and closing a pulse is recorded in `World.closed`.
- File reading in `readMap` (`os.Open`, `io.ReadAtLeast`) and its error path: I/O. `ReadMap` splits an in-memory character sequence.
- `printArea`, the `fmt` output of the commands, `show`/`listExits`/`enterRoom` of `main.go`'s `room`, and the interactive loop in `main`: output only.
- The logrus logging in `spawn`, and `connect`/`print` on `Mob`: output only.
- The `users` global read by `roomEmit`, and the message send: the users become a parameter of `World.RoomEmitRecipients`, which returns the recipients.
- `workerCount` and `waitGroup` of `MapWorker`: never used by the modelled code.
- `strings.ToLower`: only ASCII letters are lower-cased, not full Unicode.
- Exit.GenerateCommands: exits.go:36 passes the `*Exit` to `generateExitAction`, which takes a `*Room`, so the source does not compile. The model enters the exit's destination room.
- Mob.Execute: `lookCommand` calls `show()`, which only `main.go`'s separate `room` type has. The look, exits and fallback actions are modelled as changing no state.
- Mob.Execute: requires the mob's world to be set for quit. `spawn` never sets it, so in the source quit dereferences a nil world.
- Room.LeaveRoom: requires unique occupant names. With two occupants of one name, Go removes only some of them or panics, depending on their positions (`[A(x), B(x), C(y)]` ends as `[B, C]`; `[A(x), B(x)]` panics).
- World.StopWorld: requires that no pulse is closed yet. A second stop closes them again, which panics in Go.
- World.GetStartRoom: requires a non-empty room list, as Go indexes `rooms[0]`.
- BuildRooms: calls `getRooms` before `joinLinks`. `getRooms` only copies references to the rooms, so the rooms listed are the same, but keeping the listing apart from the exit updates keeps the proof small.
- BuildRooms: the joined exits are stated for the link's endpoint order. Which end comes first follows Go's map iteration and is left open.
- BuildRooms: records links with the corrected `buildExit` (`MapWorker.BuildExit`), so an exit cell at the map's edge records no link. Go's `buildExit` records one anyway: a "-" in the last column links the cell before it to the first cell of the next row, one in the first column, below the first row, links the last cell of the previous row, and a vertical bar on the first or last row points outside the map. `MapWorker.BuildExitAsWritten` and `EdgeExitWrapsToNextRow` model that behaviour, and the Findings table records it.
- MapWorker.BuildCells: scans with the corrected `buildExit`, as for `BuildRooms` above.
- MapWorker.BuildCell: handles exit cells with the corrected `buildExit`, as for `BuildRooms` above.
- MapWorker.ExitCell: records a link only when both edge-masked ends are on the map, as the corrected `buildExit` does; Go's records one for every exit cell.
- ReadMap: takes a sequence of characters and makes one symbol per character. Go's `readMap` reads one byte at a time and makes one symbol per byte (mapreader.go:40-48), so a non-ASCII character becomes one symbol, and one room, per UTF-8 byte, and widens its row by as many cells. For ASCII maps the two agree.
- Room.GetDescription: the rules of dashes are as long as the description in characters. Go's `strings.Repeat("-", len(r.description))` (rooms.go:19) counts bytes, so the two differ for non-ASCII descriptions.
- World.RoomEmitRecipients: requires every user's mob to stand in a room. `roomEmit` reads `user.Mob.location.name` (world.go:68) and panics for a mob without a location.
- MapWorker.GetRooms: the order of the listing follows Go's map iteration and is left open, so `getStartRoom`'s choice of `rooms[0]` is not fixed either.
- Adding to `Mob.cmdQueue`: the connection layer does it, and that layer is not part of this model.

## Findings

| source | as written | input that shows it | evidently intended | confidence | as-written member | corrected member |
|---|---|---|---|---|---|---|
| mapreader.go:198-212 | `buildExit` takes both neighbours of an exit from `flagToIndicies` without removing the directions that leave the grid; `getEdgeFlags` (mapreader.go:142-156) computes those directions but nothing uses it | the 3-wide map "AB-" over "C": the "-" in the last column links "B" to "C", the first cell of the next row | an exit at the edge of the map links nothing, and a link joins two cells on the exit's row or column | not executed | EdgeExitWrapsToNextRow | MapWorker.BuildExit |

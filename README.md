# Greedy corridor carver of a dungeon generator

This project models the corridor carver of a procedural dungeon generator (`pathfinder.cs`) and proves its properties in Dafny.

The carver takes a list of room centres on a 2-D integer grid, the `dungeon`. It links the rooms in a chain:
- Starting from the first room, it repeatedly picks the nearest room not yet linked (`FindNearestRoom`).
- It walks a corridor to that room, one greedy step at a time (`GenerateNextHallway`), and then goes on from there (`GenerateHallways`).

Each step works as follows:
- It looks at the four orthogonal neighbours of the current cell that are inside the grid.
- It stops when one of them is the target room, or, in merge mode, a corridor cell marked with the literal 1.
- It also stops when no neighbour is in range.
- Otherwise it moves to the neighbour closest to the target, in Manhattan distance.
- On the way it stamps corridor (`hallwayMarker`) and door (`hallwayMarker + 1`) markers, driven by two door flags.
- A counter, `infinityFailsafe`, counts the steps that do not move. When a step takes it above 3, it is reset to 0 and the walk ends. Nothing else resets it: in the code it carries over from one walk to the next and from one `GenerateHallways` call to the next. The carry-over is never observable, though. A step that stays writes at most the walker's own cell. The next step's neighbour scan and candidate list do not read that cell. Its door mechanic may stamp it again, but the walker still stays, until the guard trips (`Carver.StaySticky`). So every walk ends with the counter it started with, or with 0 (`Carver.CarveCounter`, `Planner.HallwaysCounter`). From the 0 the generator starts with, the counter is 0 whenever a walk begins.

The project has these modules:
- `Geometry`: cells, `GetNeighbors` and `ManhattanDistance`.
- `Grids`: the grid as a value.
- `Carver`: one step of a walk as the function `Step`, and a whole walk as `Carve`.
- `Planner`: room selection (`NearestRoom`), the corridors of a run (`Corridors`) and the grid after a whole run (`Hallways`).
- `Generator`: the class `HallwayGenerator`, with the `dungeon` array, `hallwayMarker` and `infinityFailsafe` as fields. Its methods update the array in place. Each method is proved equal to the functions above: `Cells()` is the array read as a grid value.

The code is modelled as written, including these quirks:
- **Scan order.** The target test and the merge test are interleaved per neighbour, in the order top, bot, left, right. A neighbour marked 1 that comes before the target in that order therefore ends the walk as a merge (`Carver.ScanFindsFirstStop`). It is not "target first, then merge" over the whole candidate set.
- **Read after write.** The test at pathfinder.cs:140 reads the next cell after pathfinder.cs:130-139 may have stamped it. With `hallwayMarker >= 2`, entering an unclaimed cell with the entrance door pending therefore stamps two doors (`Carver.DoorReadsItsOwnStamp`). With `hallwayMarker == 1` it lays a single door, marked 2, and leaves only the exit door pending (`Carver.DoorMarkerOneSingleDoor`). Entering an unclaimed cell with only the exit door pending then lays one plain cell (`Carver.DoorPlainCorridorWithMarkerOne`). With `hallwayMarker >= 2`, the flags after such a double stamp are again (true, false), so the next unclaimed cell is stamped a door as well. Every corridor cell laid on unclaimed ground is then a door, and no plain cell is ever laid. On a walk's first step the current cell is the centre of the room the walk starts from, with both flags pending (pathfinder.cs:64-67). So with `hallwayMarker >= 2`, a first step into unclaimed ground overwrites that room centre with `hallwayMarker + 1`, whatever it held before (`Carver.DoorReadsItsOwnStamp`, which leaves the current cell arbitrary).
- **L-shaped corridors.** Among equally close neighbours the strict `<` at pathfinder.cs:122 keeps the first, and the scan order is top, bottom, left, right. With both centres in range, every move therefore goes one row toward the target until the rows agree, then one column at a time (`Carver.ClosestToward`, `Carver.StepRoute`). Unless the scan stops it earlier, a corridor is an L: first along a column, then along a row. It is not a staircase.
- **Merge literal.** The merge test compares with the literal 1, not with `hallwayMarker`.
- **Loop guard.** The code does not reset `infinityFailsafe` between corridors or between runs, only when it trips. As shown above, this has no visible effect: a walk that stays once keeps staying until the counter is back at 0.
- **Oscillation.** When the current cell and the target are both inside the grid (as the model requires of every room centre), a step stays on its cell only when that cell is already the target (`Carver.StayOnlyAtTarget`). So, with every centre in range, the loop guard can only be triggered by a walk between two rooms with the same centre. A three-step oscillation on other inputs cannot happen.
- **Merging into its own trail.** The merge test at pathfinder.cs:110 excludes only the current cell, not the cell the walker has just left. In merge mode, once a step moves on from a cell that then holds the literal 1, the next step finds that cell among its neighbours and ends the walk (`Carver.MergesIntoOwnTrail`). With `hallwayMarker == 1`, every plain corridor cell holds 1. A merging walk therefore ends one step after it leaves a plain corridor cell that the step does not turn into a door. On unclaimed ground the corridor is then at most an entrance door and two plain cells, unless the walk reaches the target sooner. With `hallwayMarker == 0`, the door holds 1, so a merging walk ends one step after it leaves its own entrance door.

## Model

| member | source | states |
|---|---|---|
| Geometry.GetNeighbors | pathfinder.cs:17-31 | exactly eight neighbour cells |
| Geometry.NeighborsLayout | pathfinder.cs:17-31 | the first four are top, bot, left, right at distance `size` on one axis; the last four are diagonals, `size` away on both axes |
| Geometry.ManhattanDistance | pathfinder.cs:33-36 | non-negative, zero exactly when the two cells coincide, and at least the difference along each axis |
| Geometry.ManhattanSymmetric | pathfinder.cs:33-36 | the distance is symmetric |
| Geometry.StepToward | pathfinder.cs:86 | from any cell other than the target, one of the four orthogonal neighbours is strictly closer and lies between the cell and the target |
| Geometry.Toward | pathfinder.cs:116-126 | the reference route the greedy choice is compared with: one step along the column while the rows differ, then along the row; strictly one closer to the target, and the cell itself exactly at the target |
| Planner.DistanceBelowSentinel | pathfinder.cs:41-45 | in a grid of side at most 2^30, no distance between two in-range cells reaches int.MaxValue, the sentinel of the running minimum |
| Planner.FirstNearest | pathfinder.cs:43-48 | the index of a room at minimal distance from `start`, and every earlier room is strictly farther (strict `<` keeps the earliest of equals) |
| Planner.FirstNearestUnique | pathfinder.cs:43-48 | a nearest index with all earlier rooms strictly farther is the only one, so it is FirstNearest |
| Planner.RemoveFirst | pathfinder.cs:50 | List.Remove: the list without the first occurrence of the element, or unchanged when it is absent |
| Planner.NearestRoom | pathfinder.cs:39-52 | on an empty list: (0, 0) and the list unchanged; otherwise a room of the list at minimal distance, and a list one shorter whose multiset plus that room is the original multiset |
| Planner.NearestRoomIs | pathfinder.cs:43-51 | the earliest nearest index determines both the room returned and the list left, with exactly that occurrence taken out |
| Planner.Corridors | pathfinder.cs:59-72 | the (startRoom, endRoom) pairs of a run, one per room after the first |
| Planner.CorridorsVisitEveryRoom | pathfinder.cs:61-73 | a run over the rooms after the first makes one corridor per room, and the corridor targets are exactly those rooms, each once (as multisets) |
| Planner.CorridorsChained | pathfinder.cs:59-72 | the first corridor starts at the first room, and each later one starts where the previous one ended (`startRoom = endRoom`) |
| Planner.Hallways | pathfinder.cs:55-73 | a whole planning run keeps the grid's shape and leaves the loop guard in [0, 3] |
| Planner.HallwaysCallsBound | pathfinder.cs:63-72 | a run makes at most |rooms| × (rows + columns + 2) GenerateNextHallway calls, where `rooms` holds the rooms after the first (n − 1 of them for a list of n) |
| Planner.HallwaysCounter | pathfinder.cs:63-72 | a run leaves the loop-guard counter as it found it, or at 0 |
| Planner.HallwaysWrites | pathfinder.cs:63-72 | every cell a run changes ends up holding hallwayMarker or hallwayMarker + 1 |
| Planner.HallwaysKeepClaimed | pathfinder.cs:63-72 | with hallwayMarker >= 1, a run never turns a cell marked 2 or more into one marked below 2 |
| Carver.DirectNeighbors | pathfinder.cs:86 | `Take(4)` of GetNeighbors: exactly the cells above, below, left and right, in that order |
| Carver.Scan | pathfinder.cs:96-113 | the neighbour scan with its early returns; a stop at the target implies the target is in range, and a merge happens only in merge mode |
| Carver.ScanFindsFirstStop | pathfinder.cs:96-113 | the scan continues exactly when no in-range neighbour is the target or (in merge mode) a cell marked 1 other than the current one; otherwise it stops at the first such neighbour in scan order, as a target or as a merge |
| Carver.InRange | pathfinder.cs:96-102 | the candidate list holds only in-range neighbours, and every in-range neighbour is in it |
| Carver.InRangeEmpty | pathfinder.cs:114-115 | the candidate list is empty exactly when no direct neighbour is in range |
| Carver.MergeTestSelfRedundant | pathfinder.cs:110 | no direct neighbour equals the current cell, so the `!= start` part of the merge test never decides anything |
| Carver.Closest | pathfinder.cs:116-126 | the running minimum returns the current cell or a candidate, never farther from the target than the current cell |
| Carver.ClosestIsGreedy | pathfinder.cs:116-126 | the running minimum over the whole candidate list satisfies the greedy rule IsGreedyMove: no farther than any candidate; the current cell exactly when no candidate is strictly closer; otherwise the first closest candidate, which is strictly closer |
| Carver.ClosestIsMinimum | pathfinder.cs:116-126 | the choice is no farther from the target than any candidate |
| Carver.ClosestStaysIff | pathfinder.cs:116-126 | the choice is the current cell exactly when no candidate is strictly closer |
| Carver.ClosestIsFirst | pathfinder.cs:116-126 | a choice other than the current cell is the first candidate, in scan order, at minimal distance, and is strictly closer than the current cell |
| Carver.ClosestToward | pathfinder.cs:116-126 | with the walker and the target in range, the running minimum over the in-range neighbours is exactly Toward: rows first, then columns |
| Carver.StampNext | pathfinder.cs:130-139 | only the next cell can change, only when its marker was below 2, and only into hallwayMarker or hallwayMarker + 1; the flags stay or become (false, true) |
| Carver.StampExit | pathfinder.cs:140-144 | only the current cell can change, and only into a door; the flags stay or become (true, false) |
| Carver.DoorMechanic | pathfinder.cs:129-144 | both halves in turn keep the grid's shape; the flags stay as they were or become (false, true) or (true, false), so flags that are not both false never become both false |
| Carver.DoorWrites | pathfinder.cs:129-144 | when moving, only the current and next cells change; the next cell is written only when its marker was below 2, with a door exactly when the entrance door was pending; the current cell only becomes a door, and only when the next cell reads above 2 |
| Carver.DoorTouches | pathfinder.cs:129-144 | the door mechanic changes at most the current and next cells, only into hallwayMarker or hallwayMarker + 1, and a cell marked 2 or more only into a door |
| Carver.DoorReadsItsOwnStamp | pathfinder.cs:130-143 | with hallwayMarker >= 2, entering an unclaimed cell with the entrance door pending stamps both cells as doors and leaves only the entrance door pending |
| Carver.DoorMarkerOneSingleDoor | pathfinder.cs:130-143 | with hallwayMarker = 1 and the entrance door pending, entering an unclaimed cell stamps only that cell, as 2, and leaves only the exit door pending |
| Carver.DoorPlainCorridorWithMarkerOne | pathfinder.cs:130-143 | with hallwayMarker = 1 and only the exit door pending, entering an unclaimed cell lays one plain corridor cell and changes nothing else |
| Carver.Step | pathfinder.cs:77-157 | a step keeps the grid's shape; one that does not return true has pushed a state; a pushed state has an in-range cell and the same target |
| Carver.StepEarlyExit | pathfinder.cs:96-115 | a step pushes nothing exactly when a neighbour stops the scan or no neighbour is in range; at the target the only write is the door at the current cell, and a merge or an empty candidate list writes nothing |
| Carver.StepGreedy | pathfinder.cs:116-128 | a pushed state follows a scan in which no neighbour stops the walk, over a non-empty candidate list, and its cell follows the greedy rule IsGreedyMove over those candidates |
| Carver.StepWrites | pathfinder.cs:104-144 | every cell a step changes is the current or the next cell and receives hallwayMarker or hallwayMarker + 1; a cell marked 2 or more only becomes a door |
| Carver.StepKeepsADoorPending | pathfinder.cs:129-146 | if one door flag was pending, the pushed state has one pending too |
| Carver.StepFailsafe | pathfinder.cs:145-155 | the counter stays in [0, 3]; it grows only on a step that stays; it trips from 3 to 0 and the step returns true |
| Carver.StepProgress | pathfinder.cs:116-155 | a step that does not return true lowers distance-to-target + (3 - counter) |
| Carver.StayOnlyAtTarget | pathfinder.cs:116-150 | with current and target in range, a step that stays was already at the target |
| Carver.StepRoute | pathfinder.cs:96-146 | with both centres in range, every state a step pushes moves the walker to Toward(start, end), so a corridor is an L |
| Carver.MergesIntoOwnTrail | pathfinder.cs:110 | in merge mode, after a step that moves on from a cell that then holds 1, the next step pushes nothing: the walk ends by merging into the cell it just left |
| Carver.Carve | pathfinder.cs:68-69 | a walk ends within ManhattanDistance(start, end) + 4 - counter calls, keeps the shape and the counter in [0, 3] |
| Carver.StaySticky | pathfinder.cs:116-150 | after a step that stays, the next step stays too: it writes only its own cell, which neither the scan nor the candidate list reads |
| Carver.CarveFromStay | pathfinder.cs:68-69 | a walk from a step that stays ends with the counter at 0 |
| Carver.CarveCounter | pathfinder.cs:68-69 | a walk leaves the loop-guard counter as it found it, or at 0 |
| Carver.CarveWrites | pathfinder.cs:68-69 | every cell a walk changes ends up holding hallwayMarker or hallwayMarker + 1 |
| Carver.CarveKeepsClaimed | pathfinder.cs:68-69 | with hallwayMarker >= 1, a walk never turns a cell marked 2 or more into one marked below 2 |
| Generator.HallwayGenerator.Stamp | pathfinder.cs:106-141 | the in-place stores of pathfinder.cs:106, 132, 137 and 141: storing a marker into the dungeon changes that cell and no other |
| Generator.HallwayGenerator.FindNearestRoom | pathfinder.cs:39-52 | the running-minimum loop and List.Remove return the earliest nearest room and the list with that occurrence removed, or (0, 0) and the list unchanged when it is empty |
| Generator.HallwayGenerator.ScanNeighbors | pathfinder.cs:85-113 | the neighbour loop stops exactly as the scan does, and when it runs through it has collected every in-range neighbour in scan order |
| Generator.HallwayGenerator.ClosestRoute | pathfinder.cs:116-126 | the candidate loop computes the running minimum: the current cell or a candidate, no farther than any candidate |
| Generator.HallwayGenerator.StampDoors | pathfinder.cs:129-144 | the in-place door stamping leaves the dungeon and the flags as the door mechanic says |
| Generator.HallwayGenerator.GenerateNextHallway | pathfinder.cs:77-157 | one call pops the top state, and leaves the return value, dungeon, counter and stack as Step says |
| Generator.HallwayGenerator.WalkHallway | pathfinder.cs:68-70 | pushing a walk's first state and calling GenerateNextHallway until it returns true, then popping, leaves the dungeon and counter as Carve says and the stack empty |
| Generator.HallwayGenerator.GenerateHallways | pathfinder.cs:55-75 | empty list: the First() failure, nothing changed; otherwise the recorded corridors are Corridors of the first room over the rest, one per remaining room, and the dungeon and counter end as Hallways says; a single room carves nothing; the counter ends as it was or at 0 |

## Left out

- `Debug.Log` at pathfinder.cs:74 and 152 is logging with no effect on the state. It is not modelled.
- The `try`/`catch IndexOutOfRangeException` probe at pathfinder.cs:97-102 becomes the explicit range test `InGrid`.
- `Stack<HallwayState>` becomes a sequence whose last element is the top. It never holds more than one state, and `WalkHallway` proves it is empty again after each corridor.
- The `List` copy at pathfinder.cs:59 is a sequence value, so the caller's list cannot change. `FindNearestRoom` returns the list left after `List.Remove` instead of changing it in place.
- `HallwayGenerator` fields `dungeon` and `hallwayMarker` are constructor parameters. No value of `hallwayMarker` is assumed.
- Generator.HallwayGenerator.FindNearestRoom: requires every distance from `start` to be below int.MaxValue. Coordinates are mathematical integers, so 32-bit wrap-around in `ManhattanDistance` is not modelled. Rooms at distance int.MaxValue or more are outside the model, and on them the source does not pick the nearest room:
  - A room exactly int.MaxValue away fails the strict `<` at pathfinder.cs:45. If it is the only room, the source returns (0, 0), which is not in the list, and the `Remove` at pathfinder.cs:50 removes nothing.
  - A room farther away overflows the sum at pathfinder.cs:35 into a negative distance, which line 45 takes as closer than any real room. Example: start (0, 0), room (int.MaxValue, 1).
  - If a coordinate difference overflows, `Math.Abs(int.MinValue)` throws an OverflowException. Example: start (-1, 0), room (int.MaxValue, 0).
- `hallwayMarker + 1` at pathfinder.cs:106, 132 and 141 is taken without 32-bit wrap-around. The model agrees with the source only for hallwayMarker < int.MaxValue. At int.MaxValue the source's door marker would wrap to int.MinValue and read as unclaimed.
- Generator.HallwayGenerator.GenerateHallways: requires both sides of the dungeon to be at most 2^30, so that the previous requirement holds for every call.
- Generator.HallwayGenerator.GenerateHallways: requires every room centre to be inside the dungeon. For an out-of-range centre the source can throw at pathfinder.cs:105, 130 or 141, and those exceptions are not modelled. Some such runs do not throw. Example: a 5 × 5 dungeon with rooms (0, 0) and (0, 9), merging off. The walk lays (0, 1) to (0, 4) and then finds no strictly closer neighbour. Four steps that do not move trip the guard at pathfinder.cs:151, and the run ends normally. These runs are outside the model too. They are the only way the guard trips between rooms with different centres.
- Generator.HallwayGenerator.GenerateNextHallway: requires a non-empty stack and an in-range current cell, which its only caller guarantees. `Peek` on an empty stack, which throws, is not modelled.
- `ScanNeighbors`, `ClosestRoute`, `StampDoors` and `WalkHallway` are sections of `GenerateNextHallway` and `GenerateHallways` written as separate methods. Each holds the same loop or statements as the source lines it cites, with one exception: the door write at pathfinder.cs:105-106, inside the neighbour loop, is made by `GenerateNextHallway` after `ScanNeighbors` has returned its stop.
- Nothing is proved about the cells a corridor visits being connected to each other. A walk can end early on a merge, a dead end or a tripped guard, and the planner does not tell these apart.

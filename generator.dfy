/**
 * The generator object whose methods carve the corridors (pathfinder.cs:39-157).
 * Its `dungeon` array is updated in place; `infinityFailsafe` is a field
 * that outlives each walk. Each method is proved against the functions of
 * Carver and Planner, where the properties of the algorithm are proved.
 */
module Generator {
  import opened Wrappers
  import opened Geometry
  import opened Grids
  import opened Carver
  import opened Planner

  /** How GenerateHallways ends: normally, or with the exception First() throws on an empty list. */
  datatype Outcome = Finished | EmptyRoomList

  class HallwayGenerator {
    /** The shared dungeon grid, indexed [row, col]. */
    const dungeon: array2<int>
    /** The plain corridor marker; a door is hallwayMarker + 1. */
    const hallwayMarker: int
    /** The loop guard: counts no-progress steps across all walks of a planning run. */
    var infinityFailsafe: int

    /** Between calls the loop guard stays within [0, 3]. */
    ghost predicate Valid()
      reads this
    {
      0 <= infinityFailsafe <= 3
    }

    constructor (dungeon: array2<int>, hallwayMarker: int)
      ensures Valid()
      ensures this.dungeon == dungeon && this.hallwayMarker == hallwayMarker && infinityFailsafe == 0
    {
      this.dungeon := dungeon;
      this.hallwayMarker := hallwayMarker;
      infinityFailsafe := 0;
    }

    /** The dungeon's contents as a grid value. */
    ghost function Cells(): (g: Grid)
      reads dungeon
      ensures WellFormed(g) && |g| == dungeon.Length0
    {
      seq(dungeon.Length0, i requires 0 <= i < dungeon.Length0 reads dungeon =>
        seq(dungeon.Length1, j requires 0 <= j < dungeon.Length1 reads dungeon => dungeon[i, j]))
    }

    /** A cell is in range of the snapshot exactly when it indexes the array, and then holds the array's value. */
    lemma CellOf(c: Cell)
      ensures InGrid(Cells(), c) <==> 0 <= c.row < dungeon.Length0 && 0 <= c.col < dungeon.Length1
      ensures InGrid(Cells(), c) ==> At(Cells(), c) == dungeon[c.row, c.col]
    {
    }

    /** The snapshot depends on the array's contents only. */
    twostate lemma CellsFramed()
      requires unchanged(dungeon)
      ensures Cells() == old(Cells())
    {
    }

    /** Stores `v` in the in-range cell `c`. */
    method Stamp(c: Cell, v: int)
      requires InGrid(Cells(), c)
      modifies dungeon
      ensures Cells() == Put(old(Cells()), c, v)
    {
      ghost var g := Cells();
      CellOf(c);
      dungeon[c.row, c.col] := v;
      ghost var g' := Put(g, c, v);
      forall i | 0 <= i < |g'|
        ensures Cells()[i] == g'[i]
      {
        forall j | 0 <= j < |g'[i]|
          ensures Cells()[i][j] == g'[i][j]
        {
          CellOf(Cell(i, j));
          assert At(Cells(), Cell(i, j)) == At(g', Cell(i, j));
        }
      }
    }

    /**
     * Picks the room nearest to `start`, the earliest one on ties, and
     * removes that occurrence from the list; on an empty list it returns
     * (0, 0) and leaves the list as it was.
     */
    static method FindNearestRoom(start: Cell, roomCenters: seq<Cell>) returns (closestRoom: Cell, remaining: seq<Cell>)
      requires forall x :: x in roomCenters ==> ManhattanDistance(start, x) < IntMax
      ensures roomCenters == [] ==> closestRoom == Cell(0, 0) && remaining == roomCenters
      ensures roomCenters != [] ==>
        var k := FirstNearest(start, roomCenters);
        closestRoom == roomCenters[k] && remaining == roomCenters[..k] + roomCenters[k + 1..]
      ensures (closestRoom, remaining) == NearestRoom(start, roomCenters)
    {
      var previousDistance := IntMax;
      closestRoom := Cell(0, 0);
      ghost var best := 0;
      var i := 0;
      while i < |roomCenters|
        invariant 0 <= i <= |roomCenters|
        invariant i == 0 ==> closestRoom == Cell(0, 0) && previousDistance == IntMax
        invariant best <= i && (i > 0 ==> best < i && closestRoom == roomCenters[best])
        invariant i > 0 ==> previousDistance == ManhattanDistance(start, closestRoom)
        invariant forall j :: 0 <= j < i ==> previousDistance <= ManhattanDistance(start, roomCenters[j])
        invariant forall j :: 0 <= j < best ==> ManhattanDistance(start, roomCenters[j]) > previousDistance
      {
        var distance := ManhattanDistance(start, roomCenters[i]);
        if distance < previousDistance {
          closestRoom := roomCenters[i];
          previousDistance := distance;
          best := i;
        }
        i := i + 1;
      }
      remaining := RemoveFirst(roomCenters, closestRoom);
      if roomCenters != [] {
        NearestRoomIs(start, roomCenters, best);
      }
    }

    /**
     * The neighbour scan of pathfinder.cs:96-113, up to its first return: the
     * in-range direct neighbours are collected in scan order (top, bot, left,
     * right) and the scan stops at the first one that is the target or, with
     * merging on, holds the literal 1. When it runs to the end,
     * `possibleRoutes` holds every in-range neighbour.
     */
    method ScanNeighbors(hallwayData: HallwayState, coridors: bool) returns (stop: Option<Stop>, possibleRoutes: seq<Cell>)
      ensures stop == Scan(Cells(), DirectNeighbors(hallwayData.start), 0, hallwayData, coridors)
      ensures stop == None ==> possibleRoutes == InRange(Cells(), DirectNeighbors(hallwayData.start), 0)
    {
      var start, end := hallwayData.start, hallwayData.end;
      ghost var g := Cells();
      possibleRoutes := [];
      var directNeighbors := GetNeighbors(start.row, start.col)[..4];
      var i := 0;
      while i < 4
        invariant 0 <= i <= 4
        invariant possibleRoutes + InRange(g, directNeighbors, i) == InRange(g, directNeighbors, 0)
        invariant Scan(g, directNeighbors, i, hallwayData, coridors) == Scan(g, directNeighbors, 0, hallwayData, coridors)
      {
        var row, col := directNeighbors[i].row, directNeighbors[i].col;
        CellOf(Cell(row, col));
        if 0 <= row < dungeon.Length0 && 0 <= col < dungeon.Length1 {
          possibleRoutes := possibleRoutes + [Cell(row, col)];
          if Cell(row, col) == end {
            return Some(ReachedEnd), possibleRoutes;
          }
          if dungeon[row, col] == 1 && Cell(row, col) != start && coridors {
            return Some(Merged), possibleRoutes;
          }
        }
        i := i + 1;
      }
      stop := None;
    }

    /**
     * The running minimum of pathfinder.cs:116-126: starting from the current
     * cell, a candidate replaces the choice only when strictly closer to
     * `end`. The result is the current cell or a candidate, and no candidate
     * is closer to `end` than it.
     */
    static method ClosestRoute(possibleRoutes: seq<Cell>, start: Cell, end: Cell) returns (closestElement: Cell)
      ensures closestElement == Closest(possibleRoutes, 0, end, start)
      ensures closestElement == start || closestElement in possibleRoutes
      ensures forall k :: 0 <= k < |possibleRoutes| ==>
                ManhattanDistance(closestElement, end) <= ManhattanDistance(possibleRoutes[k], end)
    {
      closestElement := start;
      var previousNodeDistance := ManhattanDistance(start, end);
      var j := 0;
      while j < |possibleRoutes|
        invariant 0 <= j <= |possibleRoutes|
        invariant previousNodeDistance == ManhattanDistance(closestElement, end)
        invariant Closest(possibleRoutes, j, end, closestElement) == Closest(possibleRoutes, 0, end, start)
      {
        var distance := ManhattanDistance(possibleRoutes[j], end);
        if distance < previousNodeDistance {
          closestElement := possibleRoutes[j];
          previousNodeDistance := ManhattanDistance(closestElement, end);
        }
        j := j + 1;
      }
      ClosestIsMinimum(possibleRoutes, 0, end, start);
    }

    /**
     * The door mechanic of pathfinder.cs:129-144 on the dungeon itself:
     * stamps the next cell when it is unclaimed, then reads it again and may
     * stamp the current cell as a door; returns the new door flags.
     */
    method StampDoors(start: Cell, next: Cell, entranceDoor0: bool, exitDoor0: bool) returns (entranceDoor: bool, exitDoor: bool)
      requires InGrid(Cells(), start) && InGrid(Cells(), next)
      modifies dungeon
      ensures var d := DoorMechanic(old(Cells()), start, next, entranceDoor0, exitDoor0, hallwayMarker);
        Cells() == d.grid && entranceDoor == d.entranceDoor && exitDoor == d.exitDoor
    {
      entranceDoor, exitDoor := entranceDoor0, exitDoor0;
      ghost var g := Cells();
      ghost var d1 := StampNext(g, next, entranceDoor, exitDoor, hallwayMarker);
      CellOf(next);
      if dungeon[next.row, next.col] < 2 {
        if entranceDoor {
          Stamp(next, hallwayMarker + 1);
          entranceDoor := false;
          exitDoor := true;
        } else {
          Stamp(next, hallwayMarker);
        }
      }
      assert Cells() == d1.grid && entranceDoor == d1.entranceDoor && exitDoor == d1.exitDoor;
      ghost var d2 := StampExit(d1, start, next, hallwayMarker);
      CellOf(next);
      CellOf(start);
      if dungeon[next.row, next.col] > 2 && !entranceDoor && exitDoor {
        Stamp(start, hallwayMarker + 1);
        exitDoor := false;
        entranceDoor := true;
      }
    }

    /**
     * One greedy step of the walk whose state is at the top of the stack
     * (the last element) (pathfinder.cs:77-157): pops it, and either returns
     * true (target next door, merge, no candidate) or stamps markers, pushes
     * the next state and returns false, unless the loop guard trips.
     */
    method GenerateNextHallway(hallwayStack: seq<HallwayState>, coridors: bool) returns (done: bool, stack: seq<HallwayState>)
      requires Valid() && hallwayStack != []
      requires InGrid(Cells(), hallwayStack[|hallwayStack| - 1].start)
      modifies this, dungeon
      ensures Valid()
      ensures var r := Step(old(Cells()), hallwayStack[|hallwayStack| - 1], coridors, hallwayMarker, old(infinityFailsafe));
        && done == r.done
        && Cells() == r.grid
        && infinityFailsafe == r.failsafe
        && stack == hallwayStack[..|hallwayStack| - 1] + (if r.next.Some? then [r.next.value] else [])
    {
      var hallwayData := hallwayStack[|hallwayStack| - 1];
      var start, end := hallwayData.start, hallwayData.end;
      var entranceDoor, exitDoor := hallwayData.entranceDoor, hallwayData.exitDoor;
      stack := hallwayStack[..|hallwayStack| - 1];
      ghost var g := Cells();
      ghost var f := infinityFailsafe;
      CellOf(start);

      // Direct neighbours, skipping those out of range.
      var stop, possibleRoutes := ScanNeighbors(hallwayData, coridors);
      CellsFramed();
      if stop.Some? {
        if stop.value == ReachedEnd {
          // Connected to the target room: this walk is done.
          StepAtTarget(g, hallwayData, coridors, hallwayMarker, f);
          CellOf(end);
          if dungeon[end.row, end.col] > 2 && dungeon[start.row, start.col] < 2 {
            Stamp(start, hallwayMarker + 1);
          }
        } else {
          // Ran into another corridor: merged, this walk is done.
          StepNoProgressPossible(g, hallwayData, coridors, hallwayMarker, f);
        }
        done := true;
      } else if |possibleRoutes| == 0 {
        StepNoProgressPossible(g, hallwayData, coridors, hallwayMarker, f);
        done := true;
      } else {
        StepMoves(g, hallwayData, coridors, hallwayMarker, f);
        var closestElement := ClosestRoute(possibleRoutes, start, end);
        var next := closestElement;

        // Door mechanic.
        entranceDoor, exitDoor := StampDoors(start, next, entranceDoor, exitDoor);
        assert Cells() == Step(g, hallwayData, coridors, hallwayMarker, f).grid;
        stack := stack + [HallwayState(next, end, entranceDoor, exitDoor)];
        // The loop guard.
        label BeforeGuard:
        if next == start {
          infinityFailsafe := infinityFailsafe + 1;
        }
        done := false;
        if infinityFailsafe > 3 {
          infinityFailsafe := 0;
          done := true;
        }
        CellsFramed@BeforeGuard();
      }
    }

    /**
     * One corridor (pathfinder.cs:64-69): pushes the walk's initial state on
     * the empty stack, calls GenerateNextHallway until it reports done, and
     * pops what is left. The dungeon and the loop guard end as Carve says.
     */
    method WalkHallway(hallwayStack0: seq<HallwayState>, initHallwayState: HallwayState, coridors: bool) returns (hallwayStack: seq<HallwayState>)
      requires Valid() && hallwayStack0 == [] && InGrid(Cells(), initHallwayState.start)
      modifies this, dungeon
      ensures Valid() && hallwayStack == []
      ensures var walk := Carve(old(Cells()), initHallwayState, coridors, hallwayMarker, old(infinityFailsafe));
        Cells() == walk.grid && infinityFailsafe == walk.failsafe
    {
      ghost var walk := Carve(Cells(), initHallwayState, coridors, hallwayMarker, infinityFailsafe);
      hallwayStack := hallwayStack0 + [initHallwayState];
      ghost var current := initHallwayState;
      var done := false;
      while !done
        invariant Valid() && WellFormed(Cells())
        invariant |hallwayStack| <= 1
        invariant !done ==> hallwayStack == [current] && InGrid(Cells(), current.start)
        invariant !done ==>
          var c := Carve(Cells(), current, coridors, hallwayMarker, infinityFailsafe);
          c.grid == walk.grid && c.failsafe == walk.failsafe
        invariant done ==> Cells() == walk.grid && infinityFailsafe == walk.failsafe
        decreases if done then 0 else Measure(current, infinityFailsafe) + 1
      {
        ghost var st := Step(Cells(), current, coridors, hallwayMarker, infinityFailsafe);
        CarveUnfold(Cells(), current, coridors, hallwayMarker, infinityFailsafe);
        done, hallwayStack := GenerateNextHallway(hallwayStack, coridors);
        assert done == st.done && Cells() == st.grid && infinityFailsafe == st.failsafe;
        if !done {
          current := st.next.value;
        }
      }
      if |hallwayStack| > 0 {
        hallwayStack := hallwayStack[..|hallwayStack| - 1];
      }
    }

    /**
     * The planner (pathfinder.cs:55-75): takes the first room as the anchor,
     * then repeatedly picks the nearest remaining room, walks a corridor to
     * it with both doors pending until a step reports done, and goes on from
     * there. On an empty list First() throws and nothing is changed. The
     * ghost `corridors` records the (from, to) pair of every walk.
     */
    method GenerateHallways(originalRoomCenters: seq<Cell>, coridors: bool := false) returns (outcome: Outcome, ghost corridors: seq<(Cell, Cell)>)
      requires Valid() && Fits(Cells()) && AllInGrid(Cells(), originalRoomCenters)
      modifies this, dungeon
      ensures Valid()
      ensures originalRoomCenters == [] ==>
        outcome == EmptyRoomList && corridors == [] && Cells() == old(Cells()) && infinityFailsafe == old(infinityFailsafe)
      ensures originalRoomCenters != [] ==>
        var h := Hallways(old(Cells()), originalRoomCenters[0], originalRoomCenters[1..], coridors, hallwayMarker, old(infinityFailsafe));
        && outcome == Finished
        && corridors == Corridors(originalRoomCenters[0], originalRoomCenters[1..])
        && |corridors| == |originalRoomCenters| - 1
        && Cells() == h.grid
        && infinityFailsafe == h.failsafe
      ensures |originalRoomCenters| == 1 ==> Cells() == old(Cells()) && infinityFailsafe == old(infinityFailsafe)
      ensures infinityFailsafe == old(infinityFailsafe) || infinityFailsafe == 0
    {
      corridors := [];
      if originalRoomCenters == [] {
        return EmptyRoomList, corridors;
      }
      ghost var g0 := Cells();
      ghost var f0 := infinityFailsafe;
      ghost var whole := Hallways(g0, originalRoomCenters[0], originalRoomCenters[1..], coridors, hallwayMarker, f0);
      ghost var plan := Corridors(originalRoomCenters[0], originalRoomCenters[1..]);
      CorridorsVisitEveryRoom(originalRoomCenters[0], originalRoomCenters[1..]);
      HallwaysCounter(g0, originalRoomCenters[0], originalRoomCenters[1..], coridors, hallwayMarker, f0);
      var hallwayStack: seq<HallwayState> := [];
      var currentDepth := 0;
      var startRoom := originalRoomCenters[0];
      var roomCenters := originalRoomCenters[1..];
      var roomCentersCount := |roomCenters|;
      while currentDepth < roomCentersCount
        invariant Valid() && SameShape(Cells(), g0) && WellFormed(Cells())
        invariant 0 <= currentDepth <= roomCentersCount && |roomCenters| == roomCentersCount - currentDepth
        invariant hallwayStack == []
        invariant InGrid(Cells(), startRoom) && AllInGrid(Cells(), roomCenters)
        invariant var h := Hallways(Cells(), startRoom, roomCenters, coridors, hallwayMarker, infinityFailsafe);
          h.grid == whole.grid && h.failsafe == whole.failsafe
        invariant plan == corridors + Corridors(startRoom, roomCenters)
      {
        var entranceDoor := true;
        var exitDoor := true;
        RoomsBelowSentinel(Cells(), startRoom, roomCenters);
        ghost var g := Cells();
        ghost var rooms := roomCenters;
        HallwaysUnfold(g, startRoom, rooms, coridors, hallwayMarker, infinityFailsafe);
        CorridorsStep(corridors, startRoom, rooms);
        var endRoom;
        endRoom, roomCenters := FindNearestRoom(startRoom, roomCenters);
        hallwayStack := WalkHallway(hallwayStack, HallwayState(startRoom, endRoom, entranceDoor, exitDoor), coridors);
        corridors := corridors + [(startRoom, endRoom)];
        startRoom := endRoom;
        currentDepth := currentDepth + 1;
      }
      assert corridors + Corridors(startRoom, roomCenters) == corridors;
      return Finished, corridors;
    }
  }
}

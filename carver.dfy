/**
 * One greedy step of the corridor carver (GenerateNextHallway,
 * pathfinder.cs:77-157) as a function of the grid before the step, and the
 * whole walk between two rooms as the iteration of that step until it reports
 * that it is done (pathfinder.cs:69).
 */
module Carver {
  import opened Wrappers
  import opened Geometry
  import opened Grids

  /**
   * The walk in progress. As in the source, `start` is the walker's current
   * cell: it begins at the anchor room and is replaced by each chosen next
   * cell. `end` is the target room centre.
   */
  datatype HallwayState = HallwayState(start: Cell, end: Cell, entranceDoor: bool, exitDoor: bool)

  /** Why the neighbour scan ended the walk early. */
  datatype Stop = ReachedEnd | Merged

  /** The four orthogonal neighbours the carver considers: top, bot, left, right. */
  function DirectNeighbors(c: Cell): (nb: seq<Cell>)
    ensures nb == [Cell(c.row - 1, c.col), Cell(c.row + 1, c.col), Cell(c.row, c.col - 1), Cell(c.row, c.col + 1)]
  {
    GetNeighbors(c.row, c.col)[..4]
  }

  /** Whether the scan stops at neighbour `c`: it is the target, or merging is on and it holds the literal 1. */
  predicate StopsAt(g: Grid, c: Cell, s: HallwayState, coridors: bool)
    requires WellFormed(g)
  {
    InGrid(g, c) && (c == s.end || (At(g, c) == 1 && c != s.start && coridors))
  }

  /**
   * The neighbour scan from index `i` (pathfinder.cs:96-113): out-of-range
   * neighbours are skipped; for each other one the target test comes before
   * the merge test, and the first neighbour that passes either ends the step.
   */
  function Scan(g: Grid, nb: seq<Cell>, i: nat, s: HallwayState, coridors: bool): (r: Option<Stop>)
    requires WellFormed(g) && i <= |nb|
    ensures r == Some(ReachedEnd) ==> InGrid(g, s.end)
    ensures r == Some(Merged) ==> coridors
    decreases |nb| - i
  {
    if i == |nb| then None
    else if !InGrid(g, nb[i]) then Scan(g, nb, i + 1, s, coridors)
    else if nb[i] == s.end then Some(ReachedEnd)
    else if At(g, nb[i]) == 1 && nb[i] != s.start && coridors then Some(Merged)
    else Scan(g, nb, i + 1, s, coridors)
  }

  /** The in-range neighbours from index `i` on, in scan order (the source's `possibleRoutes`). */
  function InRange(g: Grid, nb: seq<Cell>, i: nat): (r: seq<Cell>)
    requires i <= |nb|
    ensures forall k :: 0 <= k < |r| ==> InGrid(g, r[k]) && r[k] in nb[i..]
    ensures forall k :: i <= k < |nb| && InGrid(g, nb[k]) ==> nb[k] in r
    decreases |nb| - i
  {
    if i == |nb| then []
    else if InGrid(g, nb[i]) then [nb[i]] + InRange(g, nb, i + 1)
    else InRange(g, nb, i + 1)
  }

  /**
   * The running minimum of pathfinder.cs:116-126 from index `j`, holding
   * `closest` so far: a candidate replaces it only when strictly closer to
   * `end`. The result is `closest` or one of the remaining candidates, and is
   * never farther than `closest`.
   */
  function Closest(cands: seq<Cell>, j: nat, end: Cell, closest: Cell): (r: Cell)
    requires j <= |cands|
    ensures r == closest || r in cands[j..]
    ensures ManhattanDistance(r, end) <= ManhattanDistance(closest, end)
    decreases |cands| - j
  {
    if j == |cands| then closest
    else Closest(cands, j + 1, end,
                 if ManhattanDistance(cands[j], end) < ManhattanDistance(closest, end) then cands[j] else closest)
  }

  /** The grid and door flags after the door mechanic of pathfinder.cs:129-144. */
  datatype Doors = Doors(grid: Grid, entranceDoor: bool, exitDoor: bool)

  /**
   * First half of the door mechanic (pathfinder.cs:130-139): an unclaimed
   * next cell (marker below 2) becomes a door while the entrance door is
   * pending, which clears it and sets the exit door; otherwise it becomes a
   * plain corridor cell.
   */
  function StampNext(g: Grid, next: Cell, entranceDoor: bool, exitDoor: bool, hallwayMarker: int): (d: Doors)
    requires WellFormed(g) && InGrid(g, next)
    ensures WellFormed(d.grid) && SameShape(d.grid, g)
    ensures forall c :: InGrid(g, c) && At(d.grid, c) != At(g, c) ==>
      c == next && At(g, c) < 2 && (At(d.grid, c) == hallwayMarker || At(d.grid, c) == hallwayMarker + 1)
    ensures (d.entranceDoor, d.exitDoor) == (entranceDoor, exitDoor) || (!d.entranceDoor && d.exitDoor)
  {
    if At(g, next) < 2 then
      if entranceDoor then Doors(Put(g, next, hallwayMarker + 1), false, true)
      else Doors(Put(g, next, hallwayMarker), entranceDoor, exitDoor)
    else Doors(g, entranceDoor, exitDoor)
  }

  /**
   * Second half (pathfinder.cs:140-144): the next cell is read again, after
   * the first half may have written it; if it is above 2 while only the
   * exit door is pending, the current cell becomes a door and the pending
   * door switches back to the entrance.
   */
  function StampExit(d: Doors, current: Cell, next: Cell, hallwayMarker: int): (d': Doors)
    requires WellFormed(d.grid) && InGrid(d.grid, current) && InGrid(d.grid, next)
    ensures WellFormed(d'.grid) && SameShape(d'.grid, d.grid)
    ensures forall c :: InGrid(d.grid, c) && At(d'.grid, c) != At(d.grid, c) ==>
      c == current && At(d'.grid, c) == hallwayMarker + 1
    ensures (d'.entranceDoor, d'.exitDoor) == (d.entranceDoor, d.exitDoor) || (d'.entranceDoor && !d'.exitDoor)
  {
    if At(d.grid, next) > 2 && !d.entranceDoor && d.exitDoor then
      Doors(Put(d.grid, current, hallwayMarker + 1), true, false)
    else d
  }

  /**
   * The door mechanic of pathfinder.cs:129-144: both halves in turn. The
   * flags are kept or move to (false, true) or (true, false), so flags that
   * are not both false never become both false.
   */
  function DoorMechanic(g: Grid, current: Cell, next: Cell, entranceDoor: bool, exitDoor: bool,
                        hallwayMarker: int): (d: Doors)
    requires WellFormed(g) && InGrid(g, current) && InGrid(g, next)
    ensures WellFormed(d.grid) && SameShape(d.grid, g)
    ensures || (d.entranceDoor, d.exitDoor) == (entranceDoor, exitDoor)
            || (d.entranceDoor, d.exitDoor) == (false, true)
            || (d.entranceDoor, d.exitDoor) == (true, false)
    ensures entranceDoor || exitDoor ==> d.entranceDoor || d.exitDoor
  {
    StampExit(StampNext(g, next, entranceDoor, exitDoor, hallwayMarker), current, next, hallwayMarker)
  }

  /**
   * What one call of GenerateNextHallway leaves behind: whether it returned
   * true, the grid, the state it pushed (None when it returned before
   * pushing) and the loop-guard counter.
   */
  datatype StepResult = StepResult(done: bool, grid: Grid, next: Option<HallwayState>, failsafe: int)

  /** One call of GenerateNextHallway on the state `s` at the top of the stack. */
  function Step(g: Grid, s: HallwayState, coridors: bool, hallwayMarker: int, failsafe: int): (r: StepResult)
    requires WellFormed(g) && InGrid(g, s.start)
    ensures WellFormed(r.grid) && SameShape(r.grid, g)
    ensures !r.done ==> r.next.Some?
    ensures r.next.Some? ==> InGrid(g, r.next.value.start) && r.next.value.end == s.end
  {
    var nb := DirectNeighbors(s.start);
    var cands := InRange(g, nb, 0);
    match Scan(g, nb, 0, s, coridors)
    case Some(ReachedEnd) =>
      var g' := if At(g, s.end) > 2 && At(g, s.start) < 2 then Put(g, s.start, hallwayMarker + 1) else g;
      StepResult(true, g', None, failsafe)
    case Some(Merged) =>
      StepResult(true, g, None, failsafe)
    case None =>
      if cands == [] then StepResult(true, g, None, failsafe)
      else
        var next := Closest(cands, 0, s.end, s.start);
        var d := DoorMechanic(g, s.start, next, s.entranceDoor, s.exitDoor, hallwayMarker);
        var state := HallwayState(next, s.end, d.entranceDoor, d.exitDoor);
        var f := if next == s.start then failsafe + 1 else failsafe;
        if f > 3 then StepResult(true, d.grid, Some(state), 0)
        else StepResult(false, d.grid, Some(state), f)
  }

  /** The termination measure of one walk: distance still to go plus no-progress steps still allowed. */
  function Measure(s: HallwayState, failsafe: int): nat
    requires 0 <= failsafe <= 3
  {
    ManhattanDistance(s.start, s.end) + (3 - failsafe)
  }

  /** Grid and loop-guard counter after a whole walk, and how many calls of GenerateNextHallway it took. */
  datatype Carved = Carved(grid: Grid, failsafe: int, calls: nat)

  /**
   * The walk of pathfinder.cs:68-69: steps until a step reports done. It
   * ends within Measure + 1 calls, that is at most
   * ManhattanDistance(start, end) + 4 calls.
   */
  function Carve(g: Grid, s: HallwayState, coridors: bool, hallwayMarker: int, failsafe: int): (r: Carved)
    requires WellFormed(g) && InGrid(g, s.start) && 0 <= failsafe <= 3
    ensures WellFormed(r.grid) && SameShape(r.grid, g)
    ensures 0 <= r.failsafe <= 3
    ensures 1 <= r.calls <= Measure(s, failsafe) + 1
    decreases Measure(s, failsafe)
  {
    var st := Step(g, s, coridors, hallwayMarker, failsafe);
    StepFailsafe(g, s, coridors, hallwayMarker, failsafe);
    if st.done then Carved(st.grid, st.failsafe, 1)
    else
      StepProgress(g, s, coridors, hallwayMarker, failsafe);
      var rest := Carve(st.grid, st.next.value, coridors, hallwayMarker, st.failsafe);
      Carved(rest.grid, rest.failsafe, rest.calls + 1)
  }

  /** One step of a walk: it either ends the walk, or leaves the rest of the walk to do from a closer state. */
  lemma CarveUnfold(g: Grid, s: HallwayState, coridors: bool, hallwayMarker: int, failsafe: int)
    requires WellFormed(g) && InGrid(g, s.start) && 0 <= failsafe <= 3
    ensures var st := Step(g, s, coridors, hallwayMarker, failsafe);
      var c := Carve(g, s, coridors, hallwayMarker, failsafe);
      && 0 <= st.failsafe <= 3
      && (st.done ==> c.grid == st.grid && c.failsafe == st.failsafe)
      && (!st.done ==>
            && st.next.Some? && InGrid(st.grid, st.next.value.start)
            && Measure(st.next.value, st.failsafe) < Measure(s, failsafe)
            && var rest := Carve(st.grid, st.next.value, coridors, hallwayMarker, st.failsafe);
            c.grid == rest.grid && c.failsafe == rest.failsafe)
  {
    StepFailsafe(g, s, coridors, hallwayMarker, failsafe);
    StepProgress(g, s, coridors, hallwayMarker, failsafe);
  }

  // ---------------------------------------------------------------------
  // Step, case by case (used to relate GenerateNextHallway to Step)

  lemma StepAtTarget(g: Grid, s: HallwayState, coridors: bool, hallwayMarker: int, failsafe: int)
    requires WellFormed(g) && InGrid(g, s.start)
    requires Scan(g, DirectNeighbors(s.start), 0, s, coridors) == Some(ReachedEnd)
    ensures InGrid(g, s.end)
    ensures Step(g, s, coridors, hallwayMarker, failsafe) ==
      StepResult(true, if At(g, s.end) > 2 && At(g, s.start) < 2 then Put(g, s.start, hallwayMarker + 1) else g,
                 None, failsafe)
  {
  }

  lemma StepNoProgressPossible(g: Grid, s: HallwayState, coridors: bool, hallwayMarker: int, failsafe: int)
    requires WellFormed(g) && InGrid(g, s.start)
    requires Scan(g, DirectNeighbors(s.start), 0, s, coridors) == Some(Merged) ||
             (Scan(g, DirectNeighbors(s.start), 0, s, coridors) == None && InRange(g, DirectNeighbors(s.start), 0) == [])
    ensures Step(g, s, coridors, hallwayMarker, failsafe) == StepResult(true, g, None, failsafe)
  {
  }

  lemma StepMoves(g: Grid, s: HallwayState, coridors: bool, hallwayMarker: int, failsafe: int)
    requires WellFormed(g) && InGrid(g, s.start)
    requires Scan(g, DirectNeighbors(s.start), 0, s, coridors) == None
    requires InRange(g, DirectNeighbors(s.start), 0) != []
    ensures var next := Closest(InRange(g, DirectNeighbors(s.start), 0), 0, s.end, s.start);
      && InGrid(g, next)
      && var d := DoorMechanic(g, s.start, next, s.entranceDoor, s.exitDoor, hallwayMarker);
         var f := if next == s.start then failsafe + 1 else failsafe;
         Step(g, s, coridors, hallwayMarker, failsafe) ==
           StepResult(f > 3, d.grid, Some(HallwayState(next, s.end, d.entranceDoor, d.exitDoor)), if f > 3 then 0 else f)
  {
  }

  // ---------------------------------------------------------------------
  // The neighbour scan and the candidate list

  /**
   * Scan returns None exactly when no in-range neighbour from `i` on stops
   * the walk; otherwise it reports the first one that does, and why.
   */
  lemma {:induction false} ScanFindsFirstStop(g: Grid, nb: seq<Cell>, i: nat, s: HallwayState, coridors: bool)
    requires WellFormed(g) && i <= |nb|
    ensures Scan(g, nb, i, s, coridors) == None <==>
              forall k :: i <= k < |nb| ==> !StopsAt(g, nb[k], s, coridors)
    ensures Scan(g, nb, i, s, coridors).Some? ==>
              exists k :: i <= k < |nb| && StopsAt(g, nb[k], s, coridors) &&
                (forall m :: i <= m < k ==> !StopsAt(g, nb[m], s, coridors)) &&
                Scan(g, nb, i, s, coridors) == Some(if nb[k] == s.end then ReachedEnd else Merged)
    decreases |nb| - i
  {
    if i < |nb| {
      ScanFindsFirstStop(g, nb, i + 1, s, coridors);
      if !StopsAt(g, nb[i], s, coridors) && Scan(g, nb, i, s, coridors).Some? {
        var k :| i + 1 <= k < |nb| && StopsAt(g, nb[k], s, coridors) &&
                 (forall m :: i + 1 <= m < k ==> !StopsAt(g, nb[m], s, coridors)) &&
                 Scan(g, nb, i + 1, s, coridors) == Some(if nb[k] == s.end then ReachedEnd else Merged);
        assert forall m :: i <= m < k ==> !StopsAt(g, nb[m], s, coridors);
      }
    }
  }

  /** The candidate list is empty only when none of the four neighbours is in range. */
  lemma {:induction false} InRangeEmpty(g: Grid, nb: seq<Cell>, i: nat)
    requires i <= |nb|
    ensures InRange(g, nb, i) == [] <==> forall k :: i <= k < |nb| ==> !InGrid(g, nb[k])
    decreases |nb| - i
  {
    if i < |nb| {
      InRangeEmpty(g, nb, i + 1);
    }
  }

  /** The merge test never fires on the current cell itself: no direct neighbour equals it. */
  lemma MergeTestSelfRedundant(c: Cell)
    ensures forall k :: 0 <= k < 4 ==> DirectNeighbors(c)[k] != c
  {
  }

  // ---------------------------------------------------------------------
  // The running minimum

  /** The choice is no farther from the target than any candidate from `j` on. */
  lemma {:induction false} ClosestIsMinimum(cands: seq<Cell>, j: nat, end: Cell, closest: Cell)
    requires j <= |cands|
    ensures forall k :: j <= k < |cands| ==>
      ManhattanDistance(Closest(cands, j, end, closest), end) <= ManhattanDistance(cands[k], end)
    decreases |cands| - j
  {
    if j < |cands| {
      var c' := if ManhattanDistance(cands[j], end) < ManhattanDistance(closest, end) then cands[j] else closest;
      ClosestIsMinimum(cands, j + 1, end, c');
      assert Closest(cands, j, end, closest) == Closest(cands, j + 1, end, c');
    }
  }

  /** The walker keeps its current cell exactly when no candidate is strictly closer. */
  lemma {:induction false} ClosestStaysIff(cands: seq<Cell>, j: nat, end: Cell, closest: Cell)
    requires j <= |cands|
    ensures (forall k :: j <= k < |cands| ==> ManhattanDistance(cands[k], end) >= ManhattanDistance(closest, end))
            <==> Closest(cands, j, end, closest) == closest
    decreases |cands| - j
  {
    ClosestIsMinimum(cands, j, end, closest);
    if j < |cands| {
      var c' := if ManhattanDistance(cands[j], end) < ManhattanDistance(closest, end) then cands[j] else closest;
      ClosestStaysIff(cands, j + 1, end, c');
      assert Closest(cands, j, end, closest) == Closest(cands, j + 1, end, c');
    }
  }

  /** A choice other than the current cell is the first candidate of minimal distance, and strictly closer. */
  lemma {:induction false} ClosestIsFirst(cands: seq<Cell>, j: nat, end: Cell, closest: Cell)
    requires j <= |cands|
    ensures var r := Closest(cands, j, end, closest);
      r != closest ==>
        exists k :: j <= k < |cands| && r == cands[k] &&
          ManhattanDistance(r, end) < ManhattanDistance(closest, end) &&
          forall m :: j <= m < k ==> ManhattanDistance(cands[m], end) > ManhattanDistance(r, end)
    decreases |cands| - j
  {
    if j < |cands| {
      var c' := if ManhattanDistance(cands[j], end) < ManhattanDistance(closest, end) then cands[j] else closest;
      ClosestIsFirst(cands, j + 1, end, c');
      var r := Closest(cands, j, end, closest);
      assert r == Closest(cands, j + 1, end, c');
      if c' == cands[j] && c' != closest {
        if r != cands[j] {
          var k :| j + 1 <= k < |cands| && r == cands[k] &&
                   ManhattanDistance(r, end) < ManhattanDistance(c', end) &&
                   forall m :: j + 1 <= m < k ==> ManhattanDistance(cands[m], end) > ManhattanDistance(r, end);
          assert forall m :: j <= m < k ==> ManhattanDistance(cands[m], end) > ManhattanDistance(r, end);
        }
      } else if r != closest {
        var k :| j + 1 <= k < |cands| && r == cands[k] &&
                 ManhattanDistance(r, end) < ManhattanDistance(c', end) &&
                 forall m :: j + 1 <= m < k ==> ManhattanDistance(cands[m], end) > ManhattanDistance(r, end);
        assert forall m :: j <= m < k ==> ManhattanDistance(cands[m], end) > ManhattanDistance(r, end);
      }
    }
  }

  // ---------------------------------------------------------------------
  // The door mechanic

  /**
   * Write discipline of the door mechanic when the walker moves: only the
   * current and the next cell change; the next cell is written only when its
   * marker was below 2, with a door (hallwayMarker + 1) exactly when the
   * entrance door was pending; the current cell can only become a door.
   */
  lemma DoorWrites(g: Grid, current: Cell, next: Cell, entranceDoor: bool, exitDoor: bool, hallwayMarker: int)
    requires WellFormed(g) && InGrid(g, current) && InGrid(g, next) && current != next
    ensures var d := DoorMechanic(g, current, next, entranceDoor, exitDoor, hallwayMarker);
      && (forall c :: InGrid(g, c) && c != current && c != next ==> At(d.grid, c) == At(g, c))
      && (At(g, next) >= 2 ==> At(d.grid, next) == At(g, next))
      && (At(g, next) < 2 ==> At(d.grid, next) == if entranceDoor then hallwayMarker + 1 else hallwayMarker)
      && (At(d.grid, current) == At(g, current) || At(d.grid, current) == hallwayMarker + 1)
      && (At(d.grid, current) != At(g, current) ==> At(d.grid, next) > 2)
  {
  }

  /** The door mechanic changes at most the current and the next cell, into corridor or door markers, and a claimed cell only into a door. */
  lemma DoorTouches(g: Grid, current: Cell, next: Cell, entranceDoor: bool, exitDoor: bool, hallwayMarker: int)
    requires WellFormed(g) && InGrid(g, current) && InGrid(g, next)
    ensures var d := DoorMechanic(g, current, next, entranceDoor, exitDoor, hallwayMarker);
      forall c :: InGrid(g, c) && At(d.grid, c) != At(g, c) ==>
        && (c == current || c == next)
        && (At(d.grid, c) == hallwayMarker || At(d.grid, c) == hallwayMarker + 1)
        && (At(g, c) >= 2 ==> At(d.grid, c) == hallwayMarker + 1)
  {
    var d1 := StampNext(g, next, entranceDoor, exitDoor, hallwayMarker);
    var d := StampExit(d1, current, next, hallwayMarker);
    forall c | InGrid(g, c) && At(d.grid, c) != At(g, c)
      ensures && (c == current || c == next)
              && (At(d.grid, c) == hallwayMarker || At(d.grid, c) == hallwayMarker + 1)
              && (At(g, c) >= 2 ==> At(d.grid, c) == hallwayMarker + 1)
    {
      assert InGrid(d1.grid, c);
    }
  }

  /**
   * The test at pathfinder.cs:140 reads the next cell after pathfinder.cs:132
   * may have stamped it. With a hallwayMarker of 2 or more, entering an
   * unclaimed cell with the entrance door pending therefore stamps both the
   * next and the current cell as doors and leaves only the entrance door
   * pending.
   */
  lemma DoorReadsItsOwnStamp(g: Grid, current: Cell, next: Cell, exitDoor: bool, hallwayMarker: int)
    requires WellFormed(g) && InGrid(g, current) && InGrid(g, next) && current != next
    requires At(g, next) < 2 && hallwayMarker >= 2
    ensures var d := DoorMechanic(g, current, next, true, exitDoor, hallwayMarker);
      && At(d.grid, next) == hallwayMarker + 1
      && At(d.grid, current) == hallwayMarker + 1
      && d.entranceDoor && !d.exitDoor
  {
  }

  /**
   * With a hallwayMarker of 1, entering an unclaimed cell with the entrance
   * door pending lays a single door (marker 2): the test at
   * pathfinder.cs:140 asks for more than 2, so the current cell is left
   * alone, and only the exit door is pending afterwards.
   */
  lemma DoorMarkerOneSingleDoor(g: Grid, current: Cell, next: Cell, exitDoor: bool)
    requires WellFormed(g) && InGrid(g, current) && InGrid(g, next)
    requires At(g, next) < 2
    ensures DoorMechanic(g, current, next, true, exitDoor, 1) == Doors(Put(g, next, 2), false, true)
  {
  }

  /**
   * With a hallwayMarker of 1 (the value the literal 1 of the merge test
   * matches), a step into an unclaimed cell while the exit door is pending
   * lays a plain corridor cell and touches nothing else.
   */
  lemma DoorPlainCorridorWithMarkerOne(g: Grid, current: Cell, next: Cell)
    requires WellFormed(g) && InGrid(g, current) && InGrid(g, next) && current != next
    requires At(g, next) < 2
    ensures var d := DoorMechanic(g, current, next, false, true, 1);
      && d.grid == Put(g, next, 1)
      && !d.entranceDoor && d.exitDoor
  {
  }

  // ---------------------------------------------------------------------
  // One step

  /**
   * The loop guard (pathfinder.cs:148-155): a step that returns before
   * pushing leaves the counter alone; a step that moves leaves it alone and
   * is not done; a step that stays counts one more no-progress step, and
   * the fourth one in a row resets the counter to 0 and ends the walk.
   * Between calls the counter stays within [0, 3].
   */
  lemma StepFailsafe(g: Grid, s: HallwayState, coridors: bool, hallwayMarker: int, failsafe: int)
    requires WellFormed(g) && InGrid(g, s.start) && 0 <= failsafe <= 3
    ensures var r := Step(g, s, coridors, hallwayMarker, failsafe);
      && 0 <= r.failsafe <= 3
      && (r.next.None? ==> r.done && r.failsafe == failsafe)
      && (r.next.Some? && r.next.value.start != s.start ==> !r.done && r.failsafe == failsafe)
      && (r.next.Some? && r.next.value.start == s.start ==>
            if failsafe == 3 then r.done && r.failsafe == 0 else !r.done && r.failsafe == failsafe + 1)
  {
  }

  /** Every step that does not end the walk lowers the termination measure. */
  lemma StepProgress(g: Grid, s: HallwayState, coridors: bool, hallwayMarker: int, failsafe: int)
    requires WellFormed(g) && InGrid(g, s.start) && 0 <= failsafe <= 3
    ensures var r := Step(g, s, coridors, hallwayMarker, failsafe);
      !r.done ==> 0 <= r.failsafe <= 3 && Measure(r.next.value, r.failsafe) < Measure(s, failsafe)
  {
    var r := Step(g, s, coridors, hallwayMarker, failsafe);
    if !r.done {
      var cands := InRange(g, DirectNeighbors(s.start), 0);
      ClosestIsFirst(cands, 0, s.end, s.start);
    }
  }

  /**
   * The step returns at the first in-range neighbour, in the order top, bot,
   * left, right, that is the target or (with merging on) holds the literal
   * 1, and it then pushes nothing. At the target the only possible write is a
   * door at the current cell, made when the target's marker is above 2 and
   * the current cell's below 2; a merge writes nothing. When no neighbour is
   * in range the step returns with the grid unchanged.
   */
  lemma StepEarlyExit(g: Grid, s: HallwayState, coridors: bool, hallwayMarker: int, failsafe: int)
    requires WellFormed(g) && InGrid(g, s.start)
    ensures var r := Step(g, s, coridors, hallwayMarker, failsafe);
      var nb := DirectNeighbors(s.start);
      && ((exists k :: 0 <= k < 4 && StopsAt(g, nb[k], s, coridors)) ==> r.done && r.next.None?)
      && (r.next.None? <==>
            (exists k :: 0 <= k < 4 && StopsAt(g, nb[k], s, coridors)) ||
            (forall k :: 0 <= k < 4 ==> !InGrid(g, nb[k])))
      && (Scan(g, nb, 0, s, coridors) == Some(ReachedEnd) ==>
            r.grid == if At(g, s.end) > 2 && At(g, s.start) < 2 then Put(g, s.start, hallwayMarker + 1) else g)
      && (Scan(g, nb, 0, s, coridors) == Some(Merged) ==> r.grid == g)
      && ((forall k :: 0 <= k < 4 ==> !InGrid(g, nb[k])) ==> r.done && r.grid == g)
  {
    var nb := DirectNeighbors(s.start);
    ScanFindsFirstStop(g, nb, 0, s, coridors);
    InRangeEmpty(g, nb, 0);
  }

  /**
   * Greedy choice: a step that pushes a state found no neighbour that stops
   * the walk and had at least one candidate. Its next cell is the current
   * one exactly when no candidate is strictly closer to the target; else it
   * is the first candidate, in scan order, of minimal distance, and that
   * distance is strictly below the current one.
   */
  lemma StepGreedy(g: Grid, s: HallwayState, coridors: bool, hallwayMarker: int, failsafe: int)
    requires WellFormed(g) && InGrid(g, s.start)
    ensures var r := Step(g, s, coridors, hallwayMarker, failsafe);
      var nb := DirectNeighbors(s.start);
      var cands := InRange(g, nb, 0);
      r.next.Some? ==>
        && (forall k :: 0 <= k < 4 ==> !StopsAt(g, nb[k], s, coridors))
        && cands != []
        && IsGreedyMove(cands, s.end, s.start, r.next.value.start)
  {
    var r := Step(g, s, coridors, hallwayMarker, failsafe);
    if r.next.Some? {
      var nb := DirectNeighbors(s.start);
      var cands := InRange(g, nb, 0);
      StepPushed(g, s, coridors, hallwayMarker, failsafe);
      ScanFindsFirstStop(g, nb, 0, s, coridors);
      ClosestIsGreedy(cands, s.end, s.start);
    }
  }

  /** A step pushes a state only after a scan with no stop over a non-empty candidate list, and moves to their running minimum. */
  lemma StepPushed(g: Grid, s: HallwayState, coridors: bool, hallwayMarker: int, failsafe: int)
    requires WellFormed(g) && InGrid(g, s.start)
    ensures var r := Step(g, s, coridors, hallwayMarker, failsafe);
      var cands := InRange(g, DirectNeighbors(s.start), 0);
      r.next.Some? ==>
        && Scan(g, DirectNeighbors(s.start), 0, s, coridors) == None
        && cands != []
        && r.next.value.start == Closest(cands, 0, s.end, s.start)
        && var d := DoorMechanic(g, s.start, r.next.value.start, s.entranceDoor, s.exitDoor, hallwayMarker);
           r.next.value.entranceDoor == d.entranceDoor && r.next.value.exitDoor == d.exitDoor
  {
  }

  /**
   * The greedy rule, stated without the loop that implements it: `n` is no
   * farther from `end` than any candidate; it is `current` exactly when no
   * candidate is strictly closer than `current`; and otherwise it is the
   * first candidate, in list order, of minimal distance.
   */
  predicate IsGreedyMove(cands: seq<Cell>, end: Cell, current: Cell, n: Cell) {
    && (forall k :: 0 <= k < |cands| ==> ManhattanDistance(n, end) <= ManhattanDistance(cands[k], end))
    && ((forall k :: 0 <= k < |cands| ==> ManhattanDistance(cands[k], end) >= ManhattanDistance(current, end))
          <==> n == current)
    && (n != current ==>
          exists k :: 0 <= k < |cands| && n == cands[k] &&
            ManhattanDistance(n, end) < ManhattanDistance(current, end) &&
            forall m :: 0 <= m < k ==> ManhattanDistance(cands[m], end) > ManhattanDistance(n, end))
  }

  /** The running minimum of pathfinder.cs:116-126 over the whole candidate list follows the greedy rule. */
  lemma ClosestIsGreedy(cands: seq<Cell>, end: Cell, start: Cell)
    ensures IsGreedyMove(cands, end, start, Closest(cands, 0, end, start))
  {
    ClosestIsMinimum(cands, 0, end, start);
    ClosestStaysIff(cands, 0, end, start);
    ClosestIsFirst(cands, 0, end, start);
  }

  /**
   * Write discipline of a step: a cell that changes is the current cell or
   * the next cell, and receives hallwayMarker or hallwayMarker + 1; a cell
   * whose marker was 2 or more can only be changed into a door.
   */
  lemma StepWrites(g: Grid, s: HallwayState, coridors: bool, hallwayMarker: int, failsafe: int)
    requires WellFormed(g) && InGrid(g, s.start)
    ensures var r := Step(g, s, coridors, hallwayMarker, failsafe);
      forall c :: InGrid(g, c) && At(r.grid, c) != At(g, c) ==>
        && (c == s.start || (r.next.Some? && c == r.next.value.start))
        && (At(r.grid, c) == hallwayMarker || At(r.grid, c) == hallwayMarker + 1)
        && (At(g, c) >= 2 ==> At(r.grid, c) == hallwayMarker + 1)
  {
    var nb := DirectNeighbors(s.start);
    var cands := InRange(g, nb, 0);
    var sc := Scan(g, nb, 0, s, coridors);
    match sc
    case Some(ReachedEnd) =>
      StepAtTarget(g, s, coridors, hallwayMarker, failsafe);
    case Some(Merged) =>
      StepNoProgressPossible(g, s, coridors, hallwayMarker, failsafe);
    case None =>
      if cands == [] {
        StepNoProgressPossible(g, s, coridors, hallwayMarker, failsafe);
      } else {
        StepMoves(g, s, coridors, hallwayMarker, failsafe);
        var next := Closest(cands, 0, s.end, s.start);
        DoorTouches(g, s.start, next, s.entranceDoor, s.exitDoor, hallwayMarker);
      }
  }

  /** The door flags of the pushed state are never both false if they were not before. */
  lemma StepKeepsADoorPending(g: Grid, s: HallwayState, coridors: bool, hallwayMarker: int, failsafe: int)
    requires WellFormed(g) && InGrid(g, s.start)
    requires s.entranceDoor || s.exitDoor
    ensures var r := Step(g, s, coridors, hallwayMarker, failsafe);
      r.next.Some? ==> r.next.value.entranceDoor || r.next.value.exitDoor
  {
    var r := Step(g, s, coridors, hallwayMarker, failsafe);
    if r.next.Some? {
      StepPushed(g, s, coridors, hallwayMarker, failsafe);
    }
  }


  /**
   * When the current cell and the target are both in range, a step can only
   * stay where it is when it already stands on the target: otherwise a
   * neighbour towards the target is in range and strictly closer. So the
   * loop guard only counts walks whose two rooms share a centre.
   */
  lemma StayOnlyAtTarget(g: Grid, s: HallwayState, coridors: bool, hallwayMarker: int, failsafe: int)
    requires WellFormed(g) && InGrid(g, s.start) && InGrid(g, s.end)
    ensures var r := Step(g, s, coridors, hallwayMarker, failsafe);
      r.next.Some? && r.next.value.start == s.start ==> s.start == s.end
  {
    var nb := DirectNeighbors(s.start);
    var cands := InRange(g, nb, 0);
    match Scan(g, nb, 0, s, coridors)
    case Some(ReachedEnd) =>
      StepAtTarget(g, s, coridors, hallwayMarker, failsafe);
    case Some(Merged) =>
      StepNoProgressPossible(g, s, coridors, hallwayMarker, failsafe);
    case None =>
      if cands == [] {
        StepNoProgressPossible(g, s, coridors, hallwayMarker, failsafe);
      } else {
        StepMoves(g, s, coridors, hallwayMarker, failsafe);
        if s.start != s.end {
          var k := StepToward(s.start, s.end);
          assert InGrid(g, nb[k]);
          assert nb[k] in cands;
          ClosestStaysIff(cands, 0, s.end, s.start);
        }
      }
  }

  /** Adjacency is symmetric: a cell is a direct neighbour of each of its direct neighbours. */
  lemma NeighborsSymmetric(c: Cell, n: Cell) returns (m: nat)
    requires n in DirectNeighbors(c)
    ensures m < 4 && DirectNeighbors(n)[m] == c
  {
    if n.row == c.row - 1 {
      m := 1;
    } else if n.row == c.row + 1 {
      m := 0;
    } else if n.col == c.col - 1 {
      m := 3;
    } else {
      m := 2;
    }
  }

  /**
   * The merge test of pathfinder.cs:110 excludes only the walker's current
   * cell, not the cell it has just left. So in merge mode, once a step has
   * moved on from a cell that then holds the literal 1, the next step finds
   * that cell among its neighbours and ends the walk.
   */
  lemma MergesIntoOwnTrail(g: Grid, s: HallwayState, hallwayMarker: int, failsafe: int)
    requires WellFormed(g) && InGrid(g, s.start)
    ensures var r := Step(g, s, true, hallwayMarker, failsafe);
      r.next.Some? && r.next.value.start != s.start && At(r.grid, s.start) == 1 ==>
        Step(r.grid, r.next.value, true, hallwayMarker, r.failsafe).next.None?
  {
    var r := Step(g, s, true, hallwayMarker, failsafe);
    var nb := DirectNeighbors(s.start);
    var cands := InRange(g, nb, 0);
    if r.next.Some? && r.next.value.start != s.start && At(r.grid, s.start) == 1 {
      var n := r.next.value.start;
      match Scan(g, nb, 0, s, true)
      case Some(ReachedEnd) =>
        StepAtTarget(g, s, true, hallwayMarker, failsafe);
      case Some(Merged) =>
        StepNoProgressPossible(g, s, true, hallwayMarker, failsafe);
      case None =>
        if cands == [] {
          StepNoProgressPossible(g, s, true, hallwayMarker, failsafe);
        } else {
          StepMoves(g, s, true, hallwayMarker, failsafe);
          assert n in nb;
          var m := NeighborsSymmetric(s.start, n);
          assert StopsAt(r.grid, DirectNeighbors(n)[m], r.next.value, true);
          StepEarlyExit(r.grid, r.next.value, true, hallwayMarker, r.failsafe);
        }
    }
  }

  // ---------------------------------------------------------------------
  // A whole walk

  /** Every cell a walk changes ends up holding hallwayMarker or hallwayMarker + 1. */
  lemma {:induction false} CarveWrites(g: Grid, s: HallwayState, coridors: bool, hallwayMarker: int, failsafe: int)
    requires WellFormed(g) && InGrid(g, s.start) && 0 <= failsafe <= 3
    ensures var r := Carve(g, s, coridors, hallwayMarker, failsafe);
      forall c :: InGrid(g, c) && At(r.grid, c) != At(g, c) ==>
        At(r.grid, c) == hallwayMarker || At(r.grid, c) == hallwayMarker + 1
    decreases Measure(s, failsafe)
  {
    var st := Step(g, s, coridors, hallwayMarker, failsafe);
    StepWrites(g, s, coridors, hallwayMarker, failsafe);
    CarveUnfold(g, s, coridors, hallwayMarker, failsafe);
    if !st.done {
      var r := Carve(g, s, coridors, hallwayMarker, failsafe);
      var rest := Carve(st.grid, st.next.value, coridors, hallwayMarker, st.failsafe);
      CarveWrites(st.grid, st.next.value, coridors, hallwayMarker, st.failsafe);
      forall c | InGrid(g, c) && At(r.grid, c) != At(g, c)
        ensures At(r.grid, c) == hallwayMarker || At(r.grid, c) == hallwayMarker + 1
      {
        assert InGrid(st.grid, c);
        if At(rest.grid, c) == At(st.grid, c) {
          assert At(st.grid, c) != At(g, c);
        }
      }
    }
  }

  /**
   * When doors are claimed markers (hallwayMarker + 1 >= 2), a walk never
   * turns a claimed cell (marker 2 or more) back into an unclaimed one.
   */
  lemma {:induction false} CarveKeepsClaimed(g: Grid, s: HallwayState, coridors: bool, hallwayMarker: int, failsafe: int)
    requires WellFormed(g) && InGrid(g, s.start) && 0 <= failsafe <= 3
    requires hallwayMarker >= 1
    ensures var r := Carve(g, s, coridors, hallwayMarker, failsafe);
      forall c :: InGrid(g, c) && At(g, c) >= 2 ==> At(r.grid, c) >= 2
    decreases Measure(s, failsafe)
  {
    var st := Step(g, s, coridors, hallwayMarker, failsafe);
    StepWrites(g, s, coridors, hallwayMarker, failsafe);
    CarveUnfold(g, s, coridors, hallwayMarker, failsafe);
    if !st.done {
      var r := Carve(g, s, coridors, hallwayMarker, failsafe);
      CarveKeepsClaimed(st.grid, st.next.value, coridors, hallwayMarker, st.failsafe);
      forall c | InGrid(g, c) && At(g, c) >= 2
        ensures At(r.grid, c) >= 2
      {
        assert InGrid(st.grid, c) && At(st.grid, c) >= 2;
      }
    }
  }

  // ---------------------------------------------------------------------
  // The loop-guard counter across a walk

  /** The scan does not look at the marker of the walker's own cell, nor at the door flags. */
  lemma {:induction false} ScanIgnoresCurrent(g: Grid, h: Grid, nb: seq<Cell>, i: nat, s: HallwayState, t: HallwayState, coridors: bool)
    requires WellFormed(g) && WellFormed(h) && SameShape(g, h) && i <= |nb|
    requires t.start == s.start && t.end == s.end
    requires forall k :: i <= k < |nb| && InGrid(g, nb[k]) && nb[k] != s.start ==> At(h, nb[k]) == At(g, nb[k])
    ensures Scan(h, nb, i, t, coridors) == Scan(g, nb, i, s, coridors)
    decreases |nb| - i
  {
    if i < |nb| {
      ScanIgnoresCurrent(g, h, nb, i + 1, s, t, coridors);
    }
  }

  /** The candidate list depends only on the grid's shape. */
  lemma {:induction false} InRangeSameShape(g: Grid, h: Grid, nb: seq<Cell>, i: nat)
    requires SameShape(g, h) && i <= |nb|
    ensures InRange(h, nb, i) == InRange(g, nb, i)
    decreases |nb| - i
  {
    if i < |nb| {
      InRangeSameShape(g, h, nb, i + 1);
    }
  }

  /**
   * A step that stays writes only the walker's own cell, which neither the
   * scan nor the candidate list reads; so the next step sees the same
   * neighbours and stays again.
   */
  lemma StaySticky(g: Grid, s: HallwayState, coridors: bool, hallwayMarker: int, failsafe: int)
    requires WellFormed(g) && InGrid(g, s.start)
    ensures var r := Step(g, s, coridors, hallwayMarker, failsafe);
      r.next.Some? && r.next.value.start == s.start ==>
        var r2 := Step(r.grid, r.next.value, coridors, hallwayMarker, r.failsafe);
        r2.next.Some? && r2.next.value.start == s.start
  {
    var r := Step(g, s, coridors, hallwayMarker, failsafe);
    if r.next.Some? && r.next.value.start == s.start {
      var nb := DirectNeighbors(s.start);
      var t := r.next.value;
      StepPushed(g, s, coridors, hallwayMarker, failsafe);
      StepWrites(g, s, coridors, hallwayMarker, failsafe);
      MergeTestSelfRedundant(s.start);
      ScanIgnoresCurrent(g, r.grid, nb, 0, s, t, coridors);
      InRangeSameShape(g, r.grid, nb, 0);
      StepMoves(r.grid, t, coridors, hallwayMarker, r.failsafe);
    }
  }

  /** From a step that stays, the walk goes on staying until the guard trips, and ends with the counter at 0. */
  lemma {:induction false} CarveFromStay(g: Grid, s: HallwayState, coridors: bool, hallwayMarker: int, failsafe: int)
    requires WellFormed(g) && InGrid(g, s.start) && 0 <= failsafe <= 3
    requires var r := Step(g, s, coridors, hallwayMarker, failsafe);
      r.next.Some? && r.next.value.start == s.start
    ensures Carve(g, s, coridors, hallwayMarker, failsafe).failsafe == 0
    decreases 3 - failsafe
  {
    var st := Step(g, s, coridors, hallwayMarker, failsafe);
    StepFailsafe(g, s, coridors, hallwayMarker, failsafe);
    CarveUnfold(g, s, coridors, hallwayMarker, failsafe);
    if !st.done {
      StaySticky(g, s, coridors, hallwayMarker, failsafe);
      CarveFromStay(st.grid, st.next.value, coridors, hallwayMarker, st.failsafe);
    }
  }

  /**
   * A walk leaves the loop-guard counter as it found it, or at 0: a walk
   * that never stays does not touch it, and one that stays once stays until
   * the guard trips.
   */
  lemma {:induction false} CarveCounter(g: Grid, s: HallwayState, coridors: bool, hallwayMarker: int, failsafe: int)
    requires WellFormed(g) && InGrid(g, s.start) && 0 <= failsafe <= 3
    ensures var r := Carve(g, s, coridors, hallwayMarker, failsafe);
      r.failsafe == failsafe || r.failsafe == 0
    decreases Measure(s, failsafe)
  {
    var st := Step(g, s, coridors, hallwayMarker, failsafe);
    StepFailsafe(g, s, coridors, hallwayMarker, failsafe);
    CarveUnfold(g, s, coridors, hallwayMarker, failsafe);
    if st.next.Some? && st.next.value.start == s.start {
      CarveFromStay(g, s, coridors, hallwayMarker, failsafe);
    } else if !st.done {
      CarveCounter(st.grid, st.next.value, coridors, hallwayMarker, st.failsafe);
    }
  }

  /** Filtering a concatenation filters each part. */
  lemma {:induction false} InRangeAppend(g: Grid, a: seq<Cell>, b: seq<Cell>, i: nat)
    requires i <= |a|
    ensures InRange(g, a + b, i) == InRange(g, a, i) + InRange(g, b, 0)
    decreases |a| - i
  {
    if i == |a| {
      InRangeShift(g, a, b, 0);
    } else {
      assert (a + b)[i] == a[i];
      InRangeAppend(g, a, b, i + 1);
    }
  }

  /** Filtering the tail of `a + b` past `a` is filtering `b`. */
  lemma {:induction false} InRangeShift(g: Grid, a: seq<Cell>, b: seq<Cell>, j: nat)
    requires j <= |b|
    ensures InRange(g, a + b, |a| + j) == InRange(g, b, j)
    decreases |b| - j
  {
    if j < |b| {
      assert (a + b)[|a| + j] == b[j];
      InRangeShift(g, a, b, j + 1);
    }
  }

  /** The running minimum over `a + b` is the running minimum over `b`, started from the one over `a`. */
  lemma {:induction false} ClosestAppend(a: seq<Cell>, b: seq<Cell>, j: nat, end: Cell, closest: Cell)
    requires j <= |a|
    ensures Closest(a + b, j, end, closest) == Closest(b, 0, end, Closest(a, j, end, closest))
    decreases |a| - j
  {
    if j == |a| {
      ClosestShift(a, b, 0, end, closest);
    } else {
      assert (a + b)[j] == a[j];
      ClosestAppend(a, b, j + 1, end,
        if ManhattanDistance(a[j], end) < ManhattanDistance(closest, end) then a[j] else closest);
    }
  }

  /** The running minimum over the tail of `a + b` past `a` is the one over `b`. */
  lemma {:induction false} ClosestShift(a: seq<Cell>, b: seq<Cell>, j: nat, end: Cell, closest: Cell)
    requires j <= |b|
    ensures Closest(a + b, |a| + j, end, closest) == Closest(b, j, end, closest)
    decreases |b| - j
  {
    if j < |b| {
      assert (a + b)[|a| + j] == b[j];
      ClosestShift(a, b, j + 1, end,
        if ManhattanDistance(b[j], end) < ManhattanDistance(closest, end) then b[j] else closest);
    }
  }

  /** Filtering a pair of cells. */
  lemma InRangePair(g: Grid, x: Cell, y: Cell)
    ensures InRange(g, [x, y], 0) == (if InGrid(g, x) then [x] else []) + (if InGrid(g, y) then [y] else [])
  {
    assert InRange(g, [x, y], 2) == [];
  }

  /**
   * The running minimum, started at `c`, over the in-range cells of a pair
   * in which `w` is at distance d - 1 and the other cell at d + 1, is `w`.
   */
  lemma ClosestOfPair(g: Grid, x: Cell, y: Cell, w: Cell, t: Cell, c: Cell)
    requires w == x || w == y
    requires InGrid(g, w)
    requires ManhattanDistance(w, t) + 1 == ManhattanDistance(c, t)
    requires ManhattanDistance(x, t) >= ManhattanDistance(w, t) && ManhattanDistance(y, t) >= ManhattanDistance(w, t)
    requires w == x || ManhattanDistance(x, t) > ManhattanDistance(w, t)
    ensures Closest(InRange(g, [x, y], 0), 0, t, c) == w
  {
    InRangePair(g, x, y);
  }

  /** The running minimum over the in-range cells of a pair, neither strictly closer than `m`, stays at `m`. */
  lemma ClosestKeepsPair(g: Grid, x: Cell, y: Cell, t: Cell, m: Cell)
    requires ManhattanDistance(x, t) >= ManhattanDistance(m, t) && ManhattanDistance(y, t) >= ManhattanDistance(m, t)
    ensures Closest(InRange(g, [x, y], 0), 0, t, m) == m
  {
    InRangePair(g, x, y);
  }

  /**
   * With the walker and the target both in range, the running minimum of
   * pathfinder.cs:116-126 over the in-range neighbours is exactly the
   * L-shaped step `Toward`. Among equally close neighbours the strict `<`
   * keeps the first, and the scan order puts top and bottom before left and
   * right, so a walk changes rows first and columns after.
   */
  lemma ClosestToward(g: Grid, c: Cell, t: Cell)
    requires WellFormed(g) && InGrid(g, c) && InGrid(g, t)
    ensures Closest(InRange(g, DirectNeighbors(c), 0), 0, t, c) == Toward(c, t)
  {
    var nb := DirectNeighbors(c);
    var v, h := [nb[0], nb[1]], [nb[2], nb[3]];
    assert nb == v + h;
    InRangeAppend(g, v, h, 0);
    ClosestAppend(InRange(g, v, 0), InRange(g, h, 0), 0, t, c);
    if c.row != t.row {
      ClosestTowardRow(g, c, t);
    } else {
      ClosestTowardColumn(g, c, t);
    }
  }

  /** While the rows differ, the vertical neighbour toward `t` wins and the horizontal ones cannot beat it. */
  lemma ClosestTowardRow(g: Grid, c: Cell, t: Cell)
    requires WellFormed(g) && InGrid(g, c) && InGrid(g, t) && c.row != t.row
    ensures var nb := DirectNeighbors(c);
      var m := Closest(InRange(g, [nb[0], nb[1]], 0), 0, t, c);
      m == Toward(c, t) && Closest(InRange(g, [nb[2], nb[3]], 0), 0, t, m) == m
  {
    var nb := DirectNeighbors(c);
    ClosestOfPair(g, nb[0], nb[1], Toward(c, t), t, c);
    ClosestKeepsPair(g, nb[2], nb[3], t, Toward(c, t));
  }

  /** Once the rows agree, no vertical neighbour is closer, and the horizontal step toward `t` wins. */
  lemma ClosestTowardColumn(g: Grid, c: Cell, t: Cell)
    requires WellFormed(g) && InGrid(g, c) && InGrid(g, t) && c.row == t.row
    ensures var nb := DirectNeighbors(c);
      && Closest(InRange(g, [nb[0], nb[1]], 0), 0, t, c) == c
      && Closest(InRange(g, [nb[2], nb[3]], 0), 0, t, c) == Toward(c, t)
  {
    var nb := DirectNeighbors(c);
    ClosestKeepsPair(g, nb[0], nb[1], t, c);
    if c != t {
      ClosestOfPair(g, nb[2], nb[3], Toward(c, t), t, c);
    } else {
      ClosestKeepsPair(g, nb[2], nb[3], t, c);
    }
  }

  /**
   * With both centres in range, every state that a step pushes moves the
   * walker to `Toward(start, end)`: the corridor between two rooms is an
   * L, unless the scan stops it first.
   */
  lemma StepRoute(g: Grid, s: HallwayState, coridors: bool, hallwayMarker: int, failsafe: int)
    requires WellFormed(g) && InGrid(g, s.start) && InGrid(g, s.end)
    ensures var r := Step(g, s, coridors, hallwayMarker, failsafe);
      r.next.Some? ==> r.next.value.start == Toward(s.start, s.end)
  {
    StepPushed(g, s, coridors, hallwayMarker, failsafe);
    ClosestToward(g, s.start, s.end);
  }
}

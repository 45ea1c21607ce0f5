/**
 * The room-connection planner (FindNearestRoom and GenerateHallways,
 * pathfinder.cs:39-75) as functions: which room is picked next, which
 * corridors are carved in which order, and the grid after all of them.
 */
module Planner {
  import opened Geometry
  import opened Grids
  import opened Carver

  /** int.MaxValue, the sentinel FindNearestRoom's running minimum starts from (pathfinder.cs:41). */
  const IntMax: int := 0x7fff_ffff

  /** A grid side bound under which no distance between two in-range cells reaches IntMax. */
  const MaxSide: int := 0x4000_0000

  predicate Fits(g: Grid) {
    |g| <= MaxSide && Cols(g) <= MaxSide
  }

  lemma DistanceBelowSentinel(g: Grid, a: Cell, b: Cell)
    requires Fits(g) && InGrid(g, a) && InGrid(g, b)
    ensures ManhattanDistance(a, b) < IntMax
  {
  }

  /** FindNearestRoom's sentinel exceeds the distance to every in-range room. */
  lemma RoomsBelowSentinel(g: Grid, start: Cell, rooms: seq<Cell>)
    requires Fits(g) && InGrid(g, start) && forall x :: x in rooms ==> InGrid(g, x)
    ensures forall x :: x in rooms ==> ManhattanDistance(start, x) < IntMax
  {
    forall x | x in rooms
      ensures ManhattanDistance(start, x) < IntMax
    {
      DistanceBelowSentinel(g, start, x);
    }
  }

  /**
   * The index of the room nearest to `start`, the earliest one among rooms at
   * equal distance (the scan only replaces its choice on a strictly smaller
   * distance).
   */
  function FirstNearest(start: Cell, rooms: seq<Cell>): (k: nat)
    requires rooms != []
    ensures k < |rooms|
    ensures forall j :: 0 <= j < |rooms| ==> ManhattanDistance(start, rooms[k]) <= ManhattanDistance(start, rooms[j])
    ensures forall j :: 0 <= j < k ==> ManhattanDistance(start, rooms[j]) > ManhattanDistance(start, rooms[k])
  {
    if |rooms| == 1 then 0
    else
      var k := FirstNearest(start, rooms[1..]);
      if ManhattanDistance(start, rooms[0]) <= ManhattanDistance(start, rooms[1 + k]) then 0 else 1 + k
  }

  /** FirstNearest is the only index that is nearest and earliest among the nearest. */
  lemma FirstNearestUnique(start: Cell, rooms: seq<Cell>, k: nat)
    requires k < |rooms|
    requires forall j :: 0 <= j < |rooms| ==> ManhattanDistance(start, rooms[k]) <= ManhattanDistance(start, rooms[j])
    requires forall j :: 0 <= j < k ==> ManhattanDistance(start, rooms[j]) > ManhattanDistance(start, rooms[k])
    ensures k == FirstNearest(start, rooms)
  {
  }

  /** The index of the first occurrence of `x`. */
  function IndexOf(s: seq<Cell>, x: Cell): (k: nat)
    requires x in s
    ensures k < |s| && s[k] == x
    ensures forall j :: 0 <= j < k ==> s[j] != x
  {
    if s[0] == x then 0 else 1 + IndexOf(s[1..], x)
  }

  /** List.Remove: the list without the first occurrence of `x`, or unchanged when `x` is absent. */
  function RemoveFirst(s: seq<Cell>, x: Cell): (r: seq<Cell>)
    ensures x !in s ==> r == s
    ensures x in s ==> r == s[..IndexOf(s, x)] + s[IndexOf(s, x) + 1..]
  {
    if s == [] then []
    else if s[0] == x then s[1..]
    else
      var t := RemoveFirst(s[1..], x);
      assert x in s ==> x in s[1..] && IndexOf(s, x) == 1 + IndexOf(s[1..], x);
      assert x in s ==> [s[0]] + s[1..][..IndexOf(s[1..], x)] == s[..IndexOf(s, x)];
      assert x in s ==> s[1..][IndexOf(s[1..], x) + 1..] == s[IndexOf(s, x) + 1..];
      [s[0]] + t
  }

  /**
   * What FindNearestRoom returns and leaves in the list: on an empty list
   * (0, 0) and the list unchanged; otherwise the nearest room, earliest on
   * ties, and the list with exactly that occurrence taken out.
   */
  function NearestRoom(start: Cell, rooms: seq<Cell>): (r: (Cell, seq<Cell>))
    ensures rooms == [] ==> r == (Cell(0, 0), rooms)
    ensures rooms != [] ==>
      && r.0 in rooms
      && (forall x :: x in rooms ==> ManhattanDistance(start, r.0) <= ManhattanDistance(start, x))
      && |r.1| == |rooms| - 1
      && multiset(r.1) + multiset{r.0} == multiset(rooms)
  {
    if rooms == [] then (Cell(0, 0), rooms)
    else
      var k := FirstNearest(start, rooms);
      assert rooms == rooms[..k] + [rooms[k]] + rooms[k + 1..];
      (rooms[k], rooms[..k] + rooms[k + 1..])
  }

  /**
   * An index that is nearest, and earliest among the nearest, determines
   * NearestRoom: that room, and the list with its first occurrence removed.
   */
  lemma NearestRoomIs(start: Cell, rooms: seq<Cell>, k: nat)
    requires k < |rooms|
    requires forall j :: 0 <= j < |rooms| ==> ManhattanDistance(start, rooms[k]) <= ManhattanDistance(start, rooms[j])
    requires forall j :: 0 <= j < k ==> ManhattanDistance(start, rooms[j]) > ManhattanDistance(start, rooms[k])
    ensures k == FirstNearest(start, rooms)
    ensures RemoveFirst(rooms, rooms[k]) == rooms[..k] + rooms[k + 1..]
    ensures NearestRoom(start, rooms) == (rooms[k], RemoveFirst(rooms, rooms[k]))
  {
    FirstNearestUnique(start, rooms, k);
    assert IndexOf(rooms, rooms[k]) == k;
  }

  /**
   * The corridors the planner carves, in order, as (from, to) pairs: from the
   * anchor to the room nearest it, then on from that room among the rooms
   * still left.
   */
  function Corridors(anchor: Cell, rooms: seq<Cell>): (cs: seq<(Cell, Cell)>)
    ensures |cs| == |rooms|
    decreases |rooms|
  {
    if rooms == [] then []
    else
      var e := NearestRoom(anchor, rooms).0;
      [(anchor, e)] + Corridors(e, NearestRoom(anchor, rooms).1)
  }

  /** The corridors carved so far followed by those still to come, one corridor further on. */
  lemma CorridorsStep(carved: seq<(Cell, Cell)>, anchor: Cell, rooms: seq<Cell>)
    requires rooms != []
    ensures var e := NearestRoom(anchor, rooms).0;
      carved + Corridors(anchor, rooms) == (carved + [(anchor, e)]) + Corridors(e, NearestRoom(anchor, rooms).1)
  {
  }

  /** The target rooms of a list of corridors. */
  function Targets(cs: seq<(Cell, Cell)>): (ts: seq<Cell>)
    ensures |ts| == |cs|
  {
    if cs == [] then [] else [cs[0].1] + Targets(cs[1..])
  }

  /**
   * Room coverage: there is one corridor per room after the first, and every
   * such room is the target of exactly one corridor.
   */
  lemma {:induction false} CorridorsVisitEveryRoom(anchor: Cell, rooms: seq<Cell>)
    ensures |Corridors(anchor, rooms)| == |rooms|
    ensures multiset(Targets(Corridors(anchor, rooms))) == multiset(rooms)
    decreases |rooms|
  {
    if rooms != [] {
      var (e, rest) := NearestRoom(anchor, rooms);
      CorridorsVisitEveryRoom(e, rest);
      var cs := Corridors(anchor, rooms);
      assert cs[1..] == Corridors(e, rest);
      assert Targets(cs) == [e] + Targets(Corridors(e, rest));
    }
  }

  /** The chain: the first corridor starts at the anchor and each next one where the previous one ended. */
  lemma {:induction false} CorridorsChained(anchor: Cell, rooms: seq<Cell>)
    ensures var cs := Corridors(anchor, rooms);
      && (cs != [] ==> cs[0].0 == anchor)
      && (forall i :: 0 <= i < |cs| - 1 ==> cs[i + 1].0 == cs[i].1)
    decreases |rooms|
  {
    if rooms != [] {
      var e := NearestRoom(anchor, rooms).0;
      var rest := NearestRoom(anchor, rooms).1;
      CorridorsChained(e, rest);
      ChainedCons((anchor, e), Corridors(e, rest));
    }
  }

  /** Putting a corridor in front of a chain that starts where it ends gives a chain. */
  lemma ChainedCons(head: (Cell, Cell), tail: seq<(Cell, Cell)>)
    requires tail != [] ==> tail[0].0 == head.1
    requires forall i :: 0 <= i < |tail| - 1 ==> tail[i + 1].0 == tail[i].1
    ensures var cs := [head] + tail;
      forall i :: 0 <= i < |cs| - 1 ==> cs[i + 1].0 == cs[i].1
  {
    var cs := [head] + tail;
    forall i | 0 <= i < |cs| - 1
      ensures cs[i + 1].0 == cs[i].1
    {
      if i > 0 {
        assert cs[i + 1] == tail[i] && cs[i] == tail[i - 1];
      }
    }
  }

  predicate AllInGrid(g: Grid, rooms: seq<Cell>) {
    forall x :: x in rooms ==> InGrid(g, x)
  }

  /** The room picked, and the rooms left, are in range when all rooms were. */
  lemma NearestRoomInGrid(g: Grid, anchor: Cell, rooms: seq<Cell>)
    requires AllInGrid(g, rooms) && rooms != []
    ensures InGrid(g, NearestRoom(anchor, rooms).0) && AllInGrid(g, NearestRoom(anchor, rooms).1)
  {
    var (e, rest) := NearestRoom(anchor, rooms);
    forall x | x in rest
      ensures InGrid(g, x)
    {
      assert x in multiset(rest);
      assert x in multiset(rooms);
    }
  }

  /** Being in range depends only on the grid's shape. */
  lemma AllInGridSameShape(g: Grid, h: Grid, rooms: seq<Cell>)
    requires AllInGrid(g, rooms) && SameShape(g, h)
    ensures AllInGrid(h, rooms)
  {
  }

  /** One walk between in-range cells takes at most the grid's half perimeter plus 2 calls. */
  lemma CarveCallsInGrid(g: Grid, s: HallwayState, coridors: bool, hallwayMarker: int, failsafe: int)
    requires WellFormed(g) && InGrid(g, s.start) && InGrid(g, s.end) && 0 <= failsafe <= 3
    ensures Carve(g, s, coridors, hallwayMarker, failsafe).calls <= |g| + Cols(g) + 2
  {
  }

  lemma AddRound(a: nat, b: nat, n: nat, m: nat, v: nat, w: nat)
    requires a <= w && b <= n * v && v == w && m == n + 1
    ensures a + b <= m * w
  {
    assert m * w == n * w + w;
  }

  /**
   * A planning run from `anchor` over the remaining rooms (pathfinder.cs:63-73):
   * for each corridor of Corridors, one walk with both doors pending, the loop
   * guard carried from walk to walk. The total number of GenerateNextHallway
   * calls is bounded by the number of rooms times the grid's half perimeter
   * plus the guard's allowance.
   */
  function Hallways(g: Grid, anchor: Cell, rooms: seq<Cell>, coridors: bool, hallwayMarker: int, failsafe: int): (r: Carved)
    requires WellFormed(g) && InGrid(g, anchor) && AllInGrid(g, rooms) && 0 <= failsafe <= 3
    ensures WellFormed(r.grid) && SameShape(r.grid, g) && 0 <= r.failsafe <= 3
    decreases |rooms|
  {
    if rooms == [] then Carved(g, failsafe, 0)
    else
      var e := NearestRoom(anchor, rooms).0;
      var rest := NearestRoom(anchor, rooms).1;
      NearestRoomInGrid(g, anchor, rooms);
      var s := HallwayState(anchor, e, true, true);
      var c := Carve(g, s, coridors, hallwayMarker, failsafe);
      AllInGridSameShape(g, c.grid, rest);
      var h := Hallways(c.grid, e, rest, coridors, hallwayMarker, c.failsafe);
      Carved(h.grid, h.failsafe, c.calls + h.calls)
  }

  /**
   * Termination of the planner: a planning run makes at most the number of
   * rooms times (the grid's half perimeter plus 2) GenerateNextHallway calls.
   */
  lemma {:induction false} HallwaysCallsBound(g: Grid, anchor: Cell, rooms: seq<Cell>, coridors: bool, hallwayMarker: int, failsafe: int)
    requires WellFormed(g) && InGrid(g, anchor) && AllInGrid(g, rooms) && 0 <= failsafe <= 3
    ensures Hallways(g, anchor, rooms, coridors, hallwayMarker, failsafe).calls <= |rooms| * (|g| + Cols(g) + 2)
    decreases |rooms|
  {
    if rooms != [] {
      var e := NearestRoom(anchor, rooms).0;
      var rest := NearestRoom(anchor, rooms).1;
      NearestRoomInGrid(g, anchor, rooms);
      var s := HallwayState(anchor, e, true, true);
      var c := Carve(g, s, coridors, hallwayMarker, failsafe);
      CarveCallsInGrid(g, s, coridors, hallwayMarker, failsafe);
      AllInGridSameShape(g, c.grid, rest);
      HallwaysCallsBound(c.grid, e, rest, coridors, hallwayMarker, c.failsafe);
      var h := Hallways(c.grid, e, rest, coridors, hallwayMarker, c.failsafe);
      assert Hallways(g, anchor, rooms, coridors, hallwayMarker, failsafe).calls == c.calls + h.calls;
      AddRound(c.calls, h.calls, |rest|, |rooms|, |c.grid| + Cols(c.grid) + 2, |g| + Cols(g) + 2);
    }
  }

  /** One round of a planning run: the walk to the nearest room, then the run from there. */
  lemma HallwaysUnfold(g: Grid, anchor: Cell, rooms: seq<Cell>, coridors: bool, hallwayMarker: int, failsafe: int)
    requires WellFormed(g) && InGrid(g, anchor) && AllInGrid(g, rooms) && 0 <= failsafe <= 3 && rooms != []
    ensures var e := NearestRoom(anchor, rooms).0;
      var rest := NearestRoom(anchor, rooms).1;
      var c := Carve(g, HallwayState(anchor, e, true, true), coridors, hallwayMarker, failsafe);
      && InGrid(g, e) && AllInGrid(c.grid, rest)
      && Hallways(g, anchor, rooms, coridors, hallwayMarker, failsafe).grid == Hallways(c.grid, e, rest, coridors, hallwayMarker, c.failsafe).grid
      && Hallways(g, anchor, rooms, coridors, hallwayMarker, failsafe).failsafe == Hallways(c.grid, e, rest, coridors, hallwayMarker, c.failsafe).failsafe
  {
    var e := NearestRoom(anchor, rooms).0;
    var rest := NearestRoom(anchor, rooms).1;
    NearestRoomInGrid(g, anchor, rooms);
    var c := Carve(g, HallwayState(anchor, e, true, true), coridors, hallwayMarker, failsafe);
    AllInGridSameShape(g, c.grid, rest);
  }

  /** Every cell a planning run changes ends up holding hallwayMarker or hallwayMarker + 1. */
  lemma {:induction false} HallwaysWrites(g: Grid, anchor: Cell, rooms: seq<Cell>, coridors: bool, hallwayMarker: int, failsafe: int)
    requires WellFormed(g) && InGrid(g, anchor) && AllInGrid(g, rooms) && 0 <= failsafe <= 3
    ensures var r := Hallways(g, anchor, rooms, coridors, hallwayMarker, failsafe);
      forall c :: InGrid(g, c) && At(r.grid, c) != At(g, c) ==>
        At(r.grid, c) == hallwayMarker || At(r.grid, c) == hallwayMarker + 1
    decreases |rooms|
  {
    if rooms != [] {
      var e := NearestRoom(anchor, rooms).0;
      var rest := NearestRoom(anchor, rooms).1;
      NearestRoomInGrid(g, anchor, rooms);
      var s := HallwayState(anchor, e, true, true);
      var c := Carve(g, s, coridors, hallwayMarker, failsafe);
      AllInGridSameShape(g, c.grid, rest);
      CarveWrites(g, s, coridors, hallwayMarker, failsafe);
      HallwaysWrites(c.grid, e, rest, coridors, hallwayMarker, c.failsafe);
      var h := Hallways(c.grid, e, rest, coridors, hallwayMarker, c.failsafe);
      assert Hallways(g, anchor, rooms, coridors, hallwayMarker, failsafe).grid == h.grid;
      forall x | InGrid(g, x) && At(h.grid, x) != At(g, x)
        ensures At(h.grid, x) == hallwayMarker || At(h.grid, x) == hallwayMarker + 1
      {
        assert InGrid(c.grid, x);
        if At(h.grid, x) == At(c.grid, x) {
          assert At(c.grid, x) != At(g, x);
        }
      }
    }
  }

  /** With hallwayMarker >= 1, a planning run never turns a claimed cell (marker 2 or more) back into an unclaimed one. */
  lemma {:induction false} HallwaysKeepClaimed(g: Grid, anchor: Cell, rooms: seq<Cell>, coridors: bool, hallwayMarker: int, failsafe: int)
    requires WellFormed(g) && InGrid(g, anchor) && AllInGrid(g, rooms) && 0 <= failsafe <= 3
    requires hallwayMarker >= 1
    ensures var r := Hallways(g, anchor, rooms, coridors, hallwayMarker, failsafe);
      forall c :: InGrid(g, c) && At(g, c) >= 2 ==> At(r.grid, c) >= 2
    decreases |rooms|
  {
    if rooms != [] {
      var e := NearestRoom(anchor, rooms).0;
      var rest := NearestRoom(anchor, rooms).1;
      NearestRoomInGrid(g, anchor, rooms);
      var s := HallwayState(anchor, e, true, true);
      var c := Carve(g, s, coridors, hallwayMarker, failsafe);
      AllInGridSameShape(g, c.grid, rest);
      CarveKeepsClaimed(g, s, coridors, hallwayMarker, failsafe);
      HallwaysKeepClaimed(c.grid, e, rest, coridors, hallwayMarker, c.failsafe);
    }
  }

  /**
   * A run leaves the loop-guard counter as it found it, or at 0; from 0, as
   * the generator is constructed, it is therefore 0 between any two walks
   * and the carry-over from walk to walk is never observable.
   */
  lemma {:induction false} HallwaysCounter(g: Grid, anchor: Cell, rooms: seq<Cell>, coridors: bool, hallwayMarker: int, failsafe: int)
    requires WellFormed(g) && InGrid(g, anchor) && AllInGrid(g, rooms) && 0 <= failsafe <= 3
    ensures var r := Hallways(g, anchor, rooms, coridors, hallwayMarker, failsafe);
      r.failsafe == failsafe || r.failsafe == 0
    decreases |rooms|
  {
    if rooms != [] {
      var e := NearestRoom(anchor, rooms).0;
      var rest := NearestRoom(anchor, rooms).1;
      var s := HallwayState(anchor, e, true, true);
      HallwaysUnfold(g, anchor, rooms, coridors, hallwayMarker, failsafe);
      var c := Carve(g, s, coridors, hallwayMarker, failsafe);
      CarveCounter(g, s, coridors, hallwayMarker, failsafe);
      HallwaysCounter(c.grid, e, rest, coridors, hallwayMarker, c.failsafe);
    }
  }
}

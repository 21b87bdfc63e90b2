/** The cave generator of game.cpp: two runs of a cellular automaton, one for trees and one for tall grass. */
module Terrain {
  import opened Geometry
  import opened Lighting
  import L = LineOfSight
  import B = Board

  /** What a hundred-sided die showed for each cell. */
  type Rolls = Point -> nat

  const NO_COLOR: nat := 255

  function Wide(ch: char, color: nat): Glyph {
    Glyph(0xff00 - 0x20 + ch as int, color, NO_COLOR)
  }

  const GRASS := Tile(Wide('.', NO_COLOR), Flags(false, false), "grass")
  const TALL_GRASS := Tile(Wide('"', 107), Flags(false, true), "tall grass")
  const TREE := Tile(Wide('#', 22), Flags(true, false), "a tree")

  predicate Interior(size: Point, p: Point) {
    0 < p.x < size.x - 1 && 0 < p.y < size.y - 1
  }

  // ----- the automaton, cell by cell -----

  function Offset(k: nat): Point {
    Point(k % 5 - 2, k / 5 - 2)
  }

  predicate IsNeighbour(o: Point, reach: nat) {
    o != ORIGIN && o.MinorSide() != 2 && o.LenWalking() <= reach
  }

  /** How many of the first k offsets of the 5 by 5 square lead to a live neighbour. */
  function Neighbours(alive: Point -> bool, p: Point, reach: nat, k: nat): nat {
    if k == 0 then 0
    else
      var o := Offset(k - 1);
      Neighbours(alive, p, reach, k - 1) + if IsNeighbour(o, reach) && alive(p.Plus(o)) then 1 else 0
  }

  predicate Rule(alive: Point -> bool, i: nat, p: Point) {
    Neighbours(alive, p, 1, 25) >= 5 || (i < 2 && Neighbours(alive, p, 2, 25) <= 1)
  }

  function Generation(size: Point, rolls: Rolls, n: nat): Point -> bool {
    if n == 0 then
      (p: Point) => InBounds(size, p) && (!Interior(size, p) || rolls(p) < 45)
    else
      var before := Generation(size, rolls, n - 1);
      (p: Point) => if Interior(size, p) then Rule(before, n - 1, p) else before(p)
  }

  /** The border is alive in every generation, and nothing outside the bounds ever is. */
  lemma {:induction false} BorderLives(size: Point, rolls: Rolls, n: nat, p: Point)
    requires !Interior(size, p)
    ensures Generation(size, rolls, n)(p) == InBounds(size, p)
  {
    if n > 0 {
      BorderLives(size, rolls, n - 1, p);
    }
  }

  /** Row by row, the cells before (x, y). */
  predicate Before(p: Point, x: int, y: int) {
    p.y < y || (p.y == y && p.x < x)
  }

  method Seed(size: Point, rolls: Rolls) returns (result: Matrix<bool>)
    requires size.x >= 0 && size.y >= 0
    ensures result.Valid() && result.size == size && result.init == false
    ensures forall p :: result.Get(p) == Generation(size, rolls, 0)(p)
  {
    hide Matrix.Get, Matrix.Set;
    result := NewMatrix(size, false);
    var x := 0;
    while x < size.x
      invariant 0 <= x <= size.x
      invariant result.Valid() && result.size == size && result.init == false
      invariant forall p :: result.Get(p) <==> InBounds(size, p) && p.x < x && (p.y == 0 || p.y == size.y - 1)
    {
      result.GetAfterSet(Point(x, 0), true);
      result := result.Set(Point(x, 0), true);
      result.GetAfterSet(Point(x, size.y - 1), true);
      result := result.Set(Point(x, size.y - 1), true);
      x := x + 1;
    }
    var y := 0;
    while y < size.y
      invariant 0 <= y <= size.y
      invariant result.Valid() && result.size == size && result.init == false
      invariant forall p :: result.Get(p) <==>
                  InBounds(size, p) &&
                  (p.y == 0 || p.y == size.y - 1 || (p.y < y && (p.x == 0 || p.x == size.x - 1)))
    {
      result.GetAfterSet(Point(0, y), true);
      result := result.Set(Point(0, y), true);
      result.GetAfterSet(Point(size.x - 1, y), true);
      result := result.Set(Point(size.x - 1, y), true);
      y := y + 1;
    }
    y := 0;
    while y < size.y
      invariant 0 <= y <= size.y
      invariant result.Valid() && result.size == size && result.init == false
      invariant forall p :: result.Get(p) <==>
                  InBounds(size, p) && (!Interior(size, p) || (Before(p, 0, y) && rolls(p) < 45))
    {
      x := 0;
      while x < size.x
        invariant 0 <= x <= size.x
        invariant result.Valid() && result.size == size && result.init == false
        invariant forall p :: result.Get(p) <==>
                    InBounds(size, p) && (!Interior(size, p) || (Before(p, x, y) && rolls(p) < 45))
      {
        if rolls(Point(x, y)) < 45 {
          result.GetAfterSet(Point(x, y), true);
          result := result.Set(Point(x, y), true);
        }
        x := x + 1;
      }
      y := y + 1;
    }
  }

  lemma NeighboursStart(alive: Point -> bool, p: Point)
    ensures Neighbours(alive, p, 1, 0) == Neighbours(alive, p, 2, 0) == 0
  {}

  lemma OffsetAt(dx: int, dy: int)
    requires -2 <= dx <= 2 && -2 <= dy <= 2
    ensures Offset(5 * (dy + 2) + (dx + 2)) == Point(dx, dy)
  {
    QuotientAndRest(dy + 2, dx + 2);
  }

  lemma QuotientAndRest(q: nat, r: nat)
    requires r < 5
    ensures (5 * q + r) / 5 == q && (5 * q + r) % 5 == r
  {}

  /** The next offset counts if it is a neighbour's and that neighbour is alive. */
  lemma NeighboursStep(alive: Point -> bool, p: Point, reach: nat, k: nat, o: Point)
    requires Offset(k) == o
    ensures Neighbours(alive, p, reach, k + 1) ==
            Neighbours(alive, p, reach, k) + if IsNeighbour(o, reach) && alive(p.Plus(o)) then 1 else 0
  {
    hide Offset, IsNeighbour;
  }

  lemma NeighboursNext(alive: Point -> bool, p: Point, reach: nat, dx: int, dy: int)
    requires -2 <= dx <= 2 && -2 <= dy <= 2
    ensures var k := 5 * (dy + 2) + (dx + 2);
      Neighbours(alive, p, reach, k + 1) ==
      Neighbours(alive, p, reach, k) +
      if IsNeighbour(Point(dx, dy), reach) && alive(Point(p.x + dx, p.y + dy)) then 1 else 0
  {
    hide Offset, IsNeighbour, Neighbours;
    OffsetAt(dx, dy);
    NeighboursStep(alive, p, reach, 5 * (dy + 2) + (dx + 2), Point(dx, dy));
  }

  /** The counting loops of the automaton around one cell. */
  method CountNeighbours(cells: Matrix<bool>, ghost alive: Point -> bool, p: Point) returns (adj1: nat, adj2: nat)
    requires cells.Valid() && cells.init == false && forall q :: alive(q) == cells.Get(q)
    ensures adj1 == Neighbours(alive, p, 1, 25) && adj2 == Neighbours(alive, p, 2, 25)
  {
    hide Offset, Neighbours;
    NeighboursStart(alive, p);
    adj1, adj2 := 0, 0;
    for dy := -2 to 3
      invariant adj1 == Neighbours(alive, p, 1, 5 * (dy + 2))
      invariant adj2 == Neighbours(alive, p, 2, 5 * (dy + 2))
    {
      for dx := -2 to 3
        invariant adj1 == Neighbours(alive, p, 1, 5 * (dy + 2) + (dx + 2))
        invariant adj2 == Neighbours(alive, p, 2, 5 * (dy + 2) + (dx + 2))
      {
        NeighboursNext(alive, p, 1, dx, dy);
        NeighboursNext(alive, p, 2, dx, dy);
        if dx == 0 && dy == 0 { continue; }
        if Min(Abs(dx), Abs(dy)) == 2 { continue; }
        var next := Point(p.x + dx, p.y + dy);
        if !(cells.Contains(next) && cells.Get(next)) { continue; }
        var distance := Max(Abs(dx), Abs(dy));
        if distance <= 1 { adj1 := adj1 + 1; }
        if distance <= 2 { adj2 := adj2 + 1; }
      }
    }
  }

  // ----- the rule, by the cells around -----

  function Around(p: Point, reach: nat): set<Point> {
    set dx, dy | -2 <= dx <= 2 && -2 <= dy <= 2 &&
                 (dx != 0 || dy != 0) && Min(Abs(dx), Abs(dy)) < 2 && Max(Abs(dx), Abs(dy)) <= reach ::
      Point(p.x + dx, p.y + dy)
  }

  function LiveAround(alive: Point -> bool, p: Point, reach: nat): set<Point> {
    set q | q in Around(p, reach) && alive(q)
  }

  function LiveAmong(alive: Point -> bool, p: Point, reach: nat, k: nat): set<Point> {
    set j: nat | j < k && IsNeighbour(Offset(j), reach) && alive(p.Plus(Offset(j))) :: p.Plus(Offset(j))
  }

  lemma OffsetsDiffer(j: nat, k: nat)
    requires j < k < 25
    ensures Offset(j) != Offset(k)
  {}

  lemma {:induction false} NeighboursAmong(alive: Point -> bool, p: Point, reach: nat, k: nat)
    requires k <= 25
    ensures Neighbours(alive, p, reach, k) == |LiveAmong(alive, p, reach, k)|
  {
    hide Offset, IsNeighbour;
    if k == 0 {
      assert LiveAmong(alive, p, reach, 0) == {};
    } else {
      NeighboursAmong(alive, p, reach, k - 1);
      var q := p.Plus(Offset(k - 1));
      forall j: nat | j < k - 1
        ensures p.Plus(Offset(j)) != q
      {
        OffsetsDiffer(j, k - 1);
      }
      assert LiveAmong(alive, p, reach, k) == LiveAmong(alive, p, reach, k - 1) +
        if IsNeighbour(Offset(k - 1), reach) && alive(q) then {q} else {};
    }
  }

  lemma AroundIs(p: Point, reach: nat, q: Point)
    requires reach <= 2
    ensures q in Around(p, reach) <==> IsNeighbour(Point(q.x - p.x, q.y - p.y), reach)
  {
    assert q == Point(p.x + (q.x - p.x), p.y + (q.y - p.y));
  }

  lemma LiveAreAmong(alive: Point -> bool, p: Point, reach: nat, q: Point)
    requires reach <= 2 && q in LiveAround(alive, p, reach)
    ensures q in LiveAmong(alive, p, reach, 25)
  {
    hide Around, IsNeighbour, Offset;
    var dx, dy := q.x - p.x, q.y - p.y;
    AroundIs(p, reach, q);
    assert -2 <= dx <= 2 && -2 <= dy <= 2 by { NeighbourBounds(Point(dx, dy), reach); }
    OffsetAt(dx, dy);
    var j: nat := 5 * (dy + 2) + (dx + 2);
    assert p.Plus(Offset(j)) == q;
  }

  lemma NeighbourBounds(o: Point, reach: nat)
    requires reach <= 2 && IsNeighbour(o, reach)
    ensures -2 <= o.x <= 2 && -2 <= o.y <= 2
  {}

  lemma AmongAreLive(alive: Point -> bool, p: Point, reach: nat, q: Point)
    requires reach <= 2 && q in LiveAmong(alive, p, reach, 25)
    ensures q in LiveAround(alive, p, reach)
  {
    hide Around, IsNeighbour, Offset;
    var j: nat :| j < 25 && IsNeighbour(Offset(j), reach) && alive(p.Plus(Offset(j))) && q == p.Plus(Offset(j));
    AroundIs(p, reach, q);
    assert Point(q.x - p.x, q.y - p.y) == Offset(j);
  }

  lemma NeighboursAreCounted(alive: Point -> bool, p: Point, reach: nat)
    requires reach <= 2
    ensures Neighbours(alive, p, reach, 25) == |LiveAround(alive, p, reach)|
  {
    hide LiveAmong, LiveAround;
    NeighboursAmong(alive, p, reach, 25);
    forall q
      ensures q in LiveAmong(alive, p, reach, 25) <==> q in LiveAround(alive, p, reach)
    {
      if q in LiveAround(alive, p, reach) { LiveAreAmong(alive, p, reach, q); }
      if q in LiveAmong(alive, p, reach, 25) { AmongAreLive(alive, p, reach, q); }
    }
    assert LiveAmong(alive, p, reach, 25) == LiveAround(alive, p, reach);
  }

  /**
   * Five or more live neighbours make a cell alive, and in the first two generations so does a wide emptiness:
   * at most one live cell within two, corners aside. Nothing else does.
   */
  lemma GenerationRule(size: Point, rolls: Rolls, n: nat, p: Point)
    requires Interior(size, p)
    ensures Generation(size, rolls, 0)(p) <==> rolls(p) < 45
    ensures var alive := Generation(size, rolls, n);
      Generation(size, rolls, n + 1)(p) <==> |LiveAround(alive, p, 1)| >= 5 || (n < 2 && |LiveAround(alive, p, 2)| <= 1)
  {
    hide Neighbours, LiveAround;
    var alive := Generation(size, rolls, n);
    NeighboursAreCounted(alive, p, 1);
    NeighboursAreCounted(alive, p, 2);
  }

  /** Walls block, tall grass hides where there is no wall, and grass does neither. */
  lemma GroundOf(size: Point, wallRolls: Rolls, grassRolls: Rolls, p: Point)
    ensures TileAt(size, wallRolls, grassRolls, p).flags.blocked <==> Generation(size, wallRolls, 3)(p)
    ensures TileAt(size, wallRolls, grassRolls, p).flags.obscure <==>
            !Generation(size, wallRolls, 3)(p) && Generation(size, grassRolls, 3)(p)
  {
    hide Generation;
  }

  method Automata(size: Point, rolls: Rolls) returns (result: Matrix<bool>)
    requires size.x >= 0 && size.y >= 0
    ensures result.Valid() && result.size == size && result.init == false
    ensures forall p :: result.Get(p) == Generation(size, rolls, 3)(p)
  {
    hide Matrix.Get, Matrix.Set;
    result := Seed(size, rolls);
    for i := 0 to 3
      invariant result.Valid() && result.size == size && result.init == false
      invariant forall p :: result.Get(p) == Generation(size, rolls, i)(p)
    {
      ghost var alive := Generation(size, rolls, i);
      var next := result;
      var y := 1;
      while y < size.y - 1
        invariant 1 <= y
        invariant next.Valid() && next.size == size && next.init == false
        invariant forall p :: next.Get(p) == if Interior(size, p) && Before(p, 0, y) then Rule(alive, i, p) else alive(p)
      {
        var x := 1;
        while x < size.x - 1
          invariant 1 <= x
          invariant next.Valid() && next.size == size && next.init == false
          invariant forall p :: next.Get(p) == if Interior(size, p) && Before(p, x, y) then Rule(alive, i, p) else alive(p)
        {
          var adj1, adj2 := CountNeighbours(result, alive, Point(x, y));
          var blocked := adj1 >= 5 || (i < 2 && adj2 <= 1);
          next.GetAfterSet(Point(x, y), blocked);
          next := next.Set(Point(x, y), blocked);
          x := x + 1;
        }
        y := y + 1;
      }
      result := next;
    }
  }

  /** The tile of every cell once the board has been filled. */
  function TileAt(size: Point, wallRolls: Rolls, grassRolls: Rolls, p: Point): Tile {
    if Generation(size, wallRolls, 3)(p) then TREE
    else if Generation(size, grassRolls, 3)(p) then TALL_GRASS
    else GRASS
  }

  /** No vision may be cached: clearAllTiles gives nothing up. */
  method InitBoard(board: B.Board, wallRolls: Rolls, grassRolls: Rolls)
    requires board.Valid() && board.vision == map[]
    modifies board`tiles
    ensures board.Valid()
    ensures board.tiles.size == old(board.tiles.size) && board.tiles.init == old(board.tiles.init)
    ensures forall p :: board.tiles.Get(p) ==
                        if InBounds(board.tiles.size, p) then TileAt(board.tiles.size, wallRolls, grassRolls, p)
                        else board.tiles.init
  {
    hide Matrix.Get, Matrix.Set, Generation, B.Board.Valid;
    board.NothingCached();
    board.ClearAllTiles(GRASS);
    var size := board.tiles.size;
    var walls := Automata(size, wallRolls);
    var grass := Automata(size, grassRolls);
    var y := 0;
    while y < size.y
      invariant 0 <= y <= size.y
      invariant board.Valid() && board.vision == map[]
      invariant board.tiles.size == size && board.tiles.init == old(board.tiles.init)
      invariant forall p :: board.tiles.Get(p) == Filled(size, wallRolls, grassRolls, board.tiles.init, p, 0, y)
    {
      var x := 0;
      while x < size.x
        invariant 0 <= x <= size.x
        invariant board.Valid() && board.vision == map[]
        invariant board.tiles.size == size && board.tiles.init == old(board.tiles.init)
        invariant forall p :: board.tiles.Get(p) == Filled(size, wallRolls, grassRolls, board.tiles.init, p, x, y)
      {
        var p := Point(x, y);
        if walls.Get(p) {
          board.tiles.GetAfterSet(p, TREE);
          board.SetTile(p, TREE);
        } else if grass.Get(p) {
          board.tiles.GetAfterSet(p, TALL_GRASS);
          board.SetTile(p, TALL_GRASS);
        }
        x := x + 1;
      }
      y := y + 1;
    }
  }

  function Filled(size: Point, wallRolls: Rolls, grassRolls: Rolls, init: Tile, p: Point, x: int, y: int): Tile {
    if !InBounds(size, p) then init
    else if Before(p, x, y) then TileAt(size, wallRolls, grassRolls, p)
    else GRASS
  }

  // ----- a room that lasts -----

  /** Sixteen cells around the centre, without the four at the corners. */
  predicate InRoom(centre: Point, p: Point) {
    var dx, dy := p.x - centre.x, p.y - centre.y;
    && -2 <= dx <= 1 && -2 <= dy <= 1
    && !((dx == -2 || dx == 1) && (dy == -2 || dy == 1))
  }

  function RoomRolls(centre: Point): Rolls {
    (p: Point) => if InRoom(centre, p) then 99 else 0
  }

  /** All is alive but the room. */
  function RoomAlive(size: Point, centre: Point): Point -> bool {
    (p: Point) => InBounds(size, p) && !InRoom(centre, p)
  }

  predicate HasRoomFor(size: Point, centre: Point) {
    3 <= centre.x < size.x - 2 && 3 <= centre.y < size.y - 2
  }

  function One(b: bool): nat {
    if b then 1 else 0
  }

  /** One for a live cell at an offset from p. */
  function At(alive: Point -> bool, p: Point, dx: int, dy: int): nat {
    One(alive(Point(p.x + dx, p.y + dy)))
  }

  /** The live cells beside p in one row, or p's two in its own. */
  function InRow(alive: Point -> bool, p: Point, dy: int): nat {
    At(alive, p, -1, dy) + (if dy == 0 then 0 else At(alive, p, 0, dy)) + At(alive, p, 1, dy)
  }

  lemma AdjacentNeighbours(alive: Point -> bool, p: Point)
    ensures Neighbours(alive, p, 1, 25) == InRow(alive, p, -1) + InRow(alive, p, 0) + InRow(alive, p, 1)
  {
    hide Neighbours, InRow;
    NeighboursStart(alive, p);
    NoneInRow(alive, p, -2);
    RowOfThree(alive, p, -1);
    RowOfThree(alive, p, 0);
    RowOfThree(alive, p, 1);
    NoneInRow(alive, p, 2);
  }

  lemma NoneInRow(alive: Point -> bool, p: Point, dy: int)
    requires dy == -2 || dy == 2
    ensures Neighbours(alive, p, 1, 5 * (dy + 2) + 5) == Neighbours(alive, p, 1, 5 * (dy + 2))
  {
    hide Neighbours;
    NeighboursNext(alive, p, 1, -2, dy);
    NeighboursNext(alive, p, 1, -1, dy);
    NeighboursNext(alive, p, 1, 0, dy);
    NeighboursNext(alive, p, 1, 1, dy);
    NeighboursNext(alive, p, 1, 2, dy);
  }

  lemma RowOfThree(alive: Point -> bool, p: Point, dy: int)
    requires -1 <= dy <= 1
    ensures Neighbours(alive, p, 1, 5 * (dy + 2) + 5) ==
            Neighbours(alive, p, 1, 5 * (dy + 2)) + InRow(alive, p, dy)
  {
    hide Neighbours;
    NeighboursNext(alive, p, 1, -2, dy);
    NeighboursNext(alive, p, 1, -1, dy);
    NeighboursNext(alive, p, 1, 0, dy);
    NeighboursNext(alive, p, 1, 1, dy);
    NeighboursNext(alive, p, 1, 2, dy);
  }

  lemma {:induction false} CountGrows(alive: Point -> bool, p: Point, reach: nat, k: nat, n: nat)
    requires k <= n
    ensures Neighbours(alive, p, reach, k) <= Neighbours(alive, p, reach, n)
    decreases n
  {
    hide Offset, IsNeighbour;
    if k < n {
      CountGrows(alive, p, reach, k, n - 1);
    }
  }

  lemma Counts(alive: Point -> bool, p: Point, reach: nat, dx: int, dy: int, n: nat)
    requires -2 <= dx <= 2 && -2 <= dy <= 2 && IsNeighbour(Point(dx, dy), reach) && alive(Point(p.x + dx, p.y + dy))
    requires 5 * (dy + 2) + (dx + 2) < n
    ensures Neighbours(alive, p, reach, 5 * (dy + 2) + (dx + 2)) + 1 <= Neighbours(alive, p, reach, n)
  {
    hide Neighbours, IsNeighbour;
    NeighboursNext(alive, p, reach, dx, dy);
    CountGrows(alive, p, reach, 5 * (dy + 2) + (dx + 2) + 1, n);
  }

  /** Two live neighbours, one after the other in the order of the offsets, are counted. */
  lemma CountsTwo(alive: Point -> bool, p: Point, dx: int, dy: int, ex: int, ey: int)
    requires -2 <= dx <= 2 && -2 <= dy <= 2 && -2 <= ex <= 2 && -2 <= ey <= 2
    requires 5 * dy + dx < 5 * ey + ex && IsNeighbour(Point(dx, dy), 2) && IsNeighbour(Point(ex, ey), 2)
    requires alive(Point(p.x + dx, p.y + dy)) && alive(Point(p.x + ex, p.y + ey))
    ensures Neighbours(alive, p, 2, 25) >= 2
  {
    hide Neighbours, IsNeighbour;
    Counts(alive, p, 2, dx, dy, 5 * (ey + 2) + (ex + 2));
    Counts(alive, p, 2, ex, ey, 25);
  }

  /** Round the room, and in it, the rule changes nothing. */
  lemma RoomIsStill(size: Point, centre: Point, i: nat, p: Point)
    requires HasRoomFor(size, centre) && Interior(size, p)
    ensures Rule(RoomAlive(size, centre), i, p) == RoomAlive(size, centre)(p)
  {
    var alive := RoomAlive(size, centre);
    AdjacentNeighbours(alive, p);
    hide Neighbours;
    if InRoom(centre, p) {
      // There is wall one or two cells above or below.
      var dy := p.y - centre.y;
      var wall := if dy == -2 then -1 else if dy == 1 then 1 else 2 * Sign(dy);
      CountsTwo(alive, p, -1, wall, 0, wall);
    }
  }

  function Sign(n: int): int {
    if n < 0 then -1 else 1
  }

  lemma {:induction false} RoomLasts(size: Point, centre: Point, n: nat, p: Point)
    requires HasRoomFor(size, centre)
    ensures Generation(size, RoomRolls(centre), n)(p) == RoomAlive(size, centre)(p)
  {
    if n > 0 && Interior(size, p) {
      var before, alive := Generation(size, RoomRolls(centre), n - 1), RoomAlive(size, centre);
      forall q ensures before(q) == alive(q) {
        RoomLasts(size, centre, n - 1, q);
      }
      SameCount(before, alive, p, 1, 25);
      SameCount(before, alive, p, 2, 25);
      RoomIsStill(size, centre, n - 1, p);
    } else if n > 0 {
      RoomLasts(size, centre, n - 1, p);
    }
  }

  lemma {:induction false} SameCount(alive: Point -> bool, alive': Point -> bool, p: Point, reach: nat, k: nat)
    requires forall q :: alive(q) == alive'(q)
    ensures Neighbours(alive, p, reach, k) == Neighbours(alive', p, reach, k)
  {
    hide Offset, IsNeighbour;
    if k > 0 {
      SameCount(alive, alive', p, reach, k - 1);
    }
  }

  // ----- boards with the axes exchanged -----

  /** The live neighbours of p, at most two away and not at the corners, in one row. */
  function InWideRow(alive: Point -> bool, p: Point, dy: int): nat {
    At(alive, p, -1, dy) + At(alive, p, 1, dy) + (if dy == 0 then 0 else At(alive, p, 0, dy)) +
    (if dy == -2 || dy == 2 then 0 else At(alive, p, -2, dy) + At(alive, p, 2, dy))
  }

  lemma WideRow(alive: Point -> bool, p: Point, dy: int)
    requires -2 <= dy <= 2
    ensures Neighbours(alive, p, 2, 5 * (dy + 2) + 5) == Neighbours(alive, p, 2, 5 * (dy + 2)) + InWideRow(alive, p, dy)
  {
    hide Neighbours;
    NeighboursNext(alive, p, 2, -2, dy);
    NeighboursNext(alive, p, 2, -1, dy);
    NeighboursNext(alive, p, 2, 0, dy);
    NeighboursNext(alive, p, 2, 1, dy);
    NeighboursNext(alive, p, 2, 2, dy);
  }

  lemma WideNeighbours(alive: Point -> bool, p: Point)
    ensures Neighbours(alive, p, 2, 25) == InWideRow(alive, p, -2) + InWideRow(alive, p, -1) + InWideRow(alive, p, 0) +
                                           InWideRow(alive, p, 1) + InWideRow(alive, p, 2)
  {
    hide Neighbours, InWideRow;
    NeighboursStart(alive, p);
    WideRow(alive, p, -2);
    WideRow(alive, p, -1);
    WideRow(alive, p, 0);
    WideRow(alive, p, 1);
    WideRow(alive, p, 2);
  }

  lemma AtTransposed(alive: Point -> bool, alive': Point -> bool, p: Point, dx: int, dy: int)
    requires forall q :: alive'(L.Transpose(q)) == alive(q)
    ensures At(alive', L.Transpose(p), dy, dx) == At(alive, p, dx, dy)
  {
    assert alive'(L.Transpose(Point(p.x + dx, p.y + dy))) == alive(Point(p.x + dx, p.y + dy));
  }

  lemma NeighboursTransposed(alive: Point -> bool, alive': Point -> bool, p: Point)
    requires forall q :: alive'(L.Transpose(q)) == alive(q)
    ensures Neighbours(alive', L.Transpose(p), 1, 25) == Neighbours(alive, p, 1, 25)
    ensures Neighbours(alive', L.Transpose(p), 2, 25) == Neighbours(alive, p, 2, 25)
  {
    AdjacentNeighbours(alive, p);
    AdjacentNeighbours(alive', L.Transpose(p));
    WideNeighbours(alive, p);
    WideNeighbours(alive', L.Transpose(p));
    hide Neighbours, At;
    forall dx, dy
      ensures At(alive', L.Transpose(p), dy, dx) == At(alive, p, dx, dy)
    {
      AtTransposed(alive, alive', p, dx, dy);
    }
  }

  lemma {:induction false} GenerationTransposed(size: Point, rolls: Rolls, rolls': Rolls, n: nat, p: Point)
    requires forall q :: rolls'(L.Transpose(q)) == rolls(q)
    ensures Generation(L.Transpose(size), rolls', n)(L.Transpose(p)) == Generation(size, rolls, n)(p)
  {
    if n == 0 {
      assert rolls'(L.Transpose(p)) == rolls(p);
    } else {
      var alive, alive' := Generation(size, rolls, n - 1), Generation(L.Transpose(size), rolls', n - 1);
      forall q ensures alive'(L.Transpose(q)) == alive(q) {
        GenerationTransposed(size, rolls, rolls', n - 1, q);
      }
      assert alive'(L.Transpose(p)) == alive(p);
      NeighboursTransposed(alive, alive', p);
      hide Neighbours;
      if Interior(size, p) {
        NextGeneration(size, rolls, n, p);
        NextGeneration(L.Transpose(size), rolls', n, L.Transpose(p));
      }
    }
  }

  // ----- narrow boards -----

  lemma NextGeneration(size: Point, rolls: Rolls, n: nat, p: Point)
    requires n > 0 && Interior(size, p)
    ensures Generation(size, rolls, n)(p) == Rule(Generation(size, rolls, n - 1), n - 1, p)
  {
    hide Rule;
  }

  /** Five live cells beside it make a cell live. */
  lemma FiveMakeAlive(size: Point, rolls: Rolls, n: nat, p: Point)
    requires n > 0 && Interior(size, p)
    requires var alive := Generation(size, rolls, n - 1); InRow(alive, p, -1) + InRow(alive, p, 0) + InRow(alive, p, 1) >= 5
    ensures Generation(size, rolls, n)(p)
  {
    hide Generation, InRow, Neighbours;
    NextGeneration(size, rolls, n, p);
    AdjacentNeighbours(Generation(size, rolls, n - 1), p);
  }

  /** At most four beside it, and two of the border within two cells, leave it free. */
  lemma FourLeaveFree(size: Point, rolls: Rolls, n: nat, p: Point, dx: int)
    requires n > 0 && Interior(size, p) && dx in {-2, -1, 1, 2} && InBounds(size, Point(p.x + dx, p.y))
    requires p.x + dx == 0 || p.x + dx == size.x - 1
    requires var alive := Generation(size, rolls, n - 1); InRow(alive, p, -1) + InRow(alive, p, 0) + InRow(alive, p, 1) <= 4
    ensures !Generation(size, rolls, n)(p)
  {
    hide Generation, InRow, Neighbours;
    var alive := Generation(size, rolls, n - 1);
    NextGeneration(size, rolls, n, p);
    AdjacentNeighbours(alive, p);
    BorderLives(size, rolls, n - 1, Point(p.x + dx, p.y - 1));
    BorderLives(size, rolls, n - 1, Point(p.x + dx, p.y));
    CountsTwo(alive, p, dx, -1, dx, 0);
  }

  lemma BorderAround(size: Point, rolls: Rolls, n: nat)
    ensures forall q | !Interior(size, q) :: Generation(size, rolls, n)(q) == InBounds(size, q)
  {
    forall q | !Interior(size, q)
      ensures Generation(size, rolls, n)(q) == InBounds(size, q)
    {
      BorderLives(size, rolls, n, q);
    }
  }

  /** Between walls one cell apart nothing is free. */
  lemma ThreeWideFills(size: Point, rolls: Rolls, n: nat, p: Point)
    requires size.x == 3 && Interior(size, p) && n > 0
    ensures Generation(size, rolls, n)(p)
  {
    hide Generation;
    BorderAround(size, rolls, n - 1);
    FiveMakeAlive(size, rolls, n, p);
  }

  /** Between walls two cells apart every generation takes one row at either end. */
  lemma {:induction false} FourWideErodes(size: Point, rolls: Rolls, n: nat, p: Point)
    requires size.x == 4 && Interior(size, p) && (p.y <= n || p.y >= size.y - 1 - n)
    ensures Generation(size, rolls, n)(p)
  {
    hide Generation;
    if n > 0 {
      BorderAround(size, rolls, n - 1);
      var y := if p.y <= n then p.y - 1 else p.y + 1;
      forall x | 1 <= x <= 2
        ensures Generation(size, rolls, n - 1)(Point(x, y))
      {
        if Interior(size, Point(x, y)) {
          FourWideErodes(size, rolls, n - 1, Point(x, y));
        }
      }
      FiveMakeAlive(size, rolls, n, p);
    }
  }

  lemma BoxCorner(rolls: Rolls, n: nat, p: Point)
    requires n > 0 && (p.x == 1 || p.x == 3) && (p.y == 1 || p.y == 3)
    ensures Generation(Point(5, 5), rolls, n)(p)
  {
    hide Generation;
    BorderAround(Point(5, 5), rolls, n - 1);
    FiveMakeAlive(Point(5, 5), rolls, n, p);
  }

  lemma BoxSide(rolls: Rolls, p: Point)
    requires p == Point(2, 1) || p == Point(1, 2) || p == Point(3, 2) || p == Point(2, 3)
    ensures Generation(Point(5, 5), rolls, 2)(p)
  {
    hide Generation;
    BorderAround(Point(5, 5), rolls, 1);
    BoxCorner(rolls, 1, Point(1, 1));
    BoxCorner(rolls, 1, Point(3, 1));
    BoxCorner(rolls, 1, Point(1, 3));
    BoxCorner(rolls, 1, Point(3, 3));
    FiveMakeAlive(Point(5, 5), rolls, 2, p);
  }

  /** Nine cells in a box of walls fill up from the corners. */
  lemma BoxFills(rolls: Rolls)
    ensures Generation(Point(5, 5), rolls, 3)(Point(2, 2))
  {
    hide Generation;
    BoxCorner(rolls, 2, Point(1, 1));
    BoxCorner(rolls, 2, Point(3, 1));
    BoxSide(rolls, Point(2, 1));
    BoxSide(rolls, Point(1, 2));
    BoxSide(rolls, Point(3, 2));
    FiveMakeAlive(Point(5, 5), rolls, 3, Point(2, 2));
  }

  function NoRolls(): Rolls {
    (p: Point) => 99
  }

  /** What is left of an empty corridor two cells wide. */
  lemma {:induction false} FourWideLasts(size: Point, n: nat, p: Point)
    requires size.x == 4 && Interior(size, p) && n < p.y < size.y - 1 - n
    ensures !Generation(size, NoRolls(), n)(p)
  {
    if n > 0 {
      hide Generation;
      BorderAround(size, NoRolls(), n - 1);
      forall q | Interior(size, q) && p.y - 1 <= q.y <= p.y + 1
        ensures !Generation(size, NoRolls(), n - 1)(q)
      {
        FourWideLasts(size, n - 1, q);
      }
      FourLeaveFree(size, NoRolls(), n, p, if p.x == 1 then -1 else 1);
    }
  }

  /** In an empty corridor three cells wide the first generation fills only the four corners. */
  lemma FiveWideFirst(size: Point, p: Point)
    requires size.x == 5 && size.y >= 6 && Interior(size, p) && (2 <= p.y <= size.y - 3 || p.x == 2)
    ensures !Generation(size, NoRolls(), 1)(p)
  {
    hide Generation;
    BorderAround(size, NoRolls(), 0);
    forall q | Interior(size, q)
      ensures !Generation(size, NoRolls(), 0)(q)
    {
      NothingAtFirst(size, q);
    }
    FourLeaveFree(size, NoRolls(), 1, p, TowardWall(p.x));
  }

  /** And the second generation fills no more than the two end rows. */
  lemma FiveWideSecond(size: Point, p: Point)
    requires size.x == 5 && size.y >= 6 && Interior(size, p) && 2 <= p.y <= size.y - 3
    ensures !Generation(size, NoRolls(), 2)(p)
  {
    hide Generation;
    BorderAround(size, NoRolls(), 1);
    forall q | Interior(size, q) && (2 <= q.y <= size.y - 3 || q.x == 2)
      ensures !Generation(size, NoRolls(), 1)(q)
    {
      FiveWideFirst(size, q);
    }
    FourLeaveFree(size, NoRolls(), 2, p, TowardWall(p.x));
  }

  function TowardWall(x: int): int {
    if x == 1 then -1 else if x == 3 then 1 else -2
  }

  lemma NothingAtFirst(size: Point, p: Point)
    requires Interior(size, p)
    ensures !Generation(size, NoRolls(), 0)(p)
  {}

  lemma FiveWideCentre(size: Point, p: Point)
    requires size.x == 5 && size.y >= 6 && p.x == 2 && 3 <= p.y <= size.y - 3
    ensures !Generation(size, NoRolls(), 3)(p)
  {
    hide Generation;
    BorderAround(size, NoRolls(), 2);
    forall q | Interior(size, q) && 2 <= q.y <= size.y - 3
      ensures !Generation(size, NoRolls(), 2)(q)
    {
      FiveWideSecond(size, q);
    }
    FourLeaveFree(size, NoRolls(), 3, p, -2);
  }
}

/** The turn scheduler of game.cpp: who acts, what an action does, and the loop that runs until the player must choose. */
module Turns {
  import opened Geometry
  import opened LineOfSight
  import opened Optional
  import opened FovTrie
  import opened Lighting
  import opened Sight
  import opened Terrain
  import B = Board
  import Keys

  datatype Action = Idle | Move(step: Point) | WaitForInput

  const STEPS := [
    Point(-1, 0), Point(0, 1), Point(0, -1), Point(1, 0),
    Point(-1, -1), Point(1, -1), Point(-1, 1), Point(1, 1)
  ]

  function StepFor(input: Keys.Input): Option<Point> {
    if input == 'h' as int then Some(Point(-1, 0))
    else if input == 'j' as int then Some(Point(0, 1))
    else if input == 'k' as int then Some(Point(0, -1))
    else if input == 'l' as int then Some(Point(1, 0))
    else if input == 'y' as int then Some(Point(-1, -1))
    else if input == 'u' as int then Some(Point(1, -1))
    else if input == 'b' as int then Some(Point(-1, 1))
    else if input == 'n' as int then Some(Point(1, 1))
    else if input == '.' as int then Some(Point(0, 0))
    else None
  }

  /** The nine keys name the nine cells within a king's move, and no other key names any. */
  lemma KeysNameDirections()
    ensures StepFor('h' as int) == Some(Point(-1, 0)) && StepFor('l' as int) == Some(Point(1, 0))
    ensures StepFor('k' as int) == Some(Point(0, -1)) && StepFor('j' as int) == Some(Point(0, 1))
    ensures StepFor('y' as int) == Some(Point(-1, -1)) && StepFor('u' as int) == Some(Point(1, -1))
    ensures StepFor('b' as int) == Some(Point(-1, 1)) && StepFor('n' as int) == Some(Point(1, 1))
    ensures StepFor('.' as int) == Some(ORIGIN)
    ensures forall key, other | StepFor(key).Some? && StepFor(key) == StepFor(other) :: key == other
    ensures forall key | StepFor(key).Some? :: StepFor(key).value.LenWalking() <= 1
  {}

  /** The others step to any of the eight cells around them. */
  lemma StepsAreTheEight(step: Point)
    ensures step in STEPS <==> step.LenWalking() == 1
    ensures |STEPS| == 8
  {
    if step.LenWalking() == 1 {
      assert step == STEPS[0] || step == STEPS[1] || step == STEPS[2] || step == STEPS[3] ||
             step == STEPS[4] || step == STEPS[5] || step == STEPS[6] || step == STEPS[7];
    }
  }

  /** The first key that names a direction. */
  predicate IsFirstDirection(keys: seq<Keys.Input>, i: nat) {
    i < |keys| && StepFor(keys[i]).Some? && forall j | 0 <= j < i :: StepFor(keys[j]) == None
  }

  lemma {:induction false} FirstDirectionIsTaken(keys: seq<Keys.Input>, i: nat)
    requires IsFirstDirection(keys, i)
    ensures FirstMove(keys, None) == Some(Move(StepFor(keys[i]).value)) && AfterMove(keys, None) == keys[i + 1..]
  {
    hide StepFor;
    if i == 0 {
      TakenIsKept(keys[1..], Move(StepFor(keys[0]).value));
    } else {
      FirstDirectionIsTaken(keys[1..], i - 1);
    }
  }

  lemma TakenIsKept(keys: seq<Keys.Input>, action: Action)
    ensures FirstMove(keys, Some(action)) == Some(action) && AfterMove(keys, Some(action)) == keys
  {}

  lemma {:induction false} NoDirectionIsTaken(keys: seq<Keys.Input>)
    requires forall key <- keys :: StepFor(key) == None
    ensures FirstMove(keys, None) == None && AfterMove(keys, None) == []
  {
    hide StepFor;
    if keys != [] {
      NoDirectionIsTaken(keys[1..]);
    }
  }

  /** The keys left over once one of them has named a direction. */
  function AfterMove(keys: seq<Keys.Input>, input: Option<Action>): seq<Keys.Input> {
    if keys == [] || input != None then keys
    else AfterMove(keys[1..], if StepFor(keys[0]) == None then None else Some(Move(StepFor(keys[0]).value)))
  }

  function FirstMove(keys: seq<Keys.Input>, input: Option<Action>): Option<Action> {
    if keys == [] || input != None then input
    else FirstMove(keys[1..], if StepFor(keys[0]) == None then None else Some(Move(StepFor(keys[0]).value)))
  }

  // ----- the laws of the clocks, on values -----

  /** The exact account of one entity: turns taken against advances seen. */
  ghost predicate OnTime(c: B.Clock) {
    && 1 <= c.charge <= B.TURN_TIMER
    && c.turnTimer == B.TURN_TIMER * c.turns - c.charge * c.advances
    && -c.charge < c.turnTimer <= B.TURN_TIMER
    && c.moveTimer == 0
  }

  lemma OnTimeAfterAdvance(c: B.Clock)
    requires OnTime(c) && c.turnTimer > 0
    ensures OnTime(c.Advanced())
  {
    assert c.charge * (c.advances + 1) == c.charge * c.advances + c.charge;
  }

  lemma OnTimeAfterWait(c: B.Clock)
    requires OnTime(c) && c.turnTimer <= 0
    ensures OnTime(c.Waited(0, 1))
  {}

  /** Turns follow charge to within one turn: c(N - 1) < 120 A <= cN + 120. */
  lemma TurnsFollowCharge(c: B.Clock)
    requires OnTime(c)
    ensures c.charge * (c.advances - 1) < B.TURN_TIMER * c.turns <= c.charge * c.advances + B.TURN_TIMER
  {
    assert c.charge * (c.advances - 1) == c.charge * c.advances - c.charge;
  }

  /** Two entities that have seen the same advances, give or take one, act in proportion to their charges. */
  lemma TurnsAreProportional(c: B.Clock, d: B.Clock)
    requires OnTime(c) && OnTime(d) && c.advances <= d.advances + 1
    ensures B.TURN_TIMER * (c.turns * d.charge - d.turns * c.charge) < 2 * (c.charge * d.charge) + B.TURN_TIMER * d.charge
  {
    assert c.charge >= 1 && d.charge >= 1;
    hide OnTime;
    AtMost(c, d.charge, d.advances + 1);
    AtLeast(d, c.charge);
    var k := c.charge * d.charge;
    assert k * (d.advances + 1) == k * (d.advances - 1) + 2 * k;
  }

  lemma AtMost(c: B.Clock, scale: int, advances: int)
    requires OnTime(c) && scale >= 1 && c.advances <= advances
    ensures B.TURN_TIMER * (c.turns * scale) <= c.charge * scale * advances + B.TURN_TIMER * scale
  {
    TurnsFollowCharge(c);
    MulMonotone(c.advances, advances, c.charge);
    MulMonotone(B.TURN_TIMER * c.turns, c.charge * advances + B.TURN_TIMER, scale);
    assert B.TURN_TIMER * (c.turns * scale) == (B.TURN_TIMER * c.turns) * scale;
    assert (c.charge * advances + B.TURN_TIMER) * scale == c.charge * scale * advances + B.TURN_TIMER * scale;
  }

  lemma AtLeast(c: B.Clock, scale: int)
    requires OnTime(c) && scale >= 1
    ensures scale * c.charge * (c.advances - 1) < B.TURN_TIMER * (c.turns * scale)
  {
    TurnsFollowCharge(c);
    var low := c.charge * (c.advances - 1);
    MulMonotone(low + 1, B.TURN_TIMER * c.turns, scale);
    assert B.TURN_TIMER * (c.turns * scale) == (B.TURN_TIMER * c.turns) * scale;
    assert (low + 1) * scale == scale * c.charge * (c.advances - 1) + scale;
  }

  lemma MulMonotone(a: int, b: int, m: nat)
    requires a <= b
    ensures a * m <= b * m
  {
    assert (b - a) * m >= 0;
    assert b * m == a * m + (b - a) * m;
  }

  // ----- the laws of the ring and of the board, on values -----

  ghost predicate AllOnTime(times: map<B.Entity, B.Clock>) {
    forall e | e in times :: OnTime(times[e])
  }

  /** Everyone before the active entity has seen one advance more than everyone from it on. */
  ghost predicate Fair(entities: seq<B.Entity>, index: nat, times: map<B.Entity, B.Clock>, rounds: nat) {
    forall i | 0 <= i < |entities| ::
      entities[i] in times && times[entities[i]].advances == rounds + if i < index then 1 else 0
  }

  lemma FairAfterAdvance(entities: seq<B.Entity>, index: nat, times: map<B.Entity, B.Clock>, rounds: nat)
    requires forall i, j :: 0 <= i < j < |entities| ==> entities[i] != entities[j]
    requires index < |entities| && Fair(entities, index, times, rounds)
    ensures var times' := times[entities[index] := times[entities[index]].Advanced()];
      if index + 1 < |entities| then Fair(entities, index + 1, times', rounds)
      else Fair(entities, 0, times', rounds + 1)
  {}

  lemma AllOnTimeAfterAdvance(times: map<B.Entity, B.Clock>, e: B.Entity)
    requires AllOnTime(times) && e in times && times[e].turnTimer > 0
    ensures AllOnTime(times[e := times[e].Advanced()])
  {
    OnTimeAfterAdvance(times[e]);
  }

  lemma AllOnTimeAfterWait(times: map<B.Entity, B.Clock>, e: B.Entity)
    requires AllOnTime(times) && e in times && times[e].turnTimer <= 0
    ensures AllOnTime(times[e := times[e].Waited(0, 1)])
  {
    OnTimeAfterWait(times[e]);
  }

  lemma FairAfterWait(entities: seq<B.Entity>, index: nat, times: map<B.Entity, B.Clock>, rounds: nat, e: B.Entity)
    requires Fair(entities, index, times, rounds) && e in times
    ensures Fair(entities, index, times[e := times[e].Waited(0, 1)], rounds)
  {}

  /** The outermost ring of cells is blocked, and so is everything outside the map. */
  ghost predicate Walled(tiles: TileMap) {
    forall p: Point :: !Interior(tiles.size, p) ==> tiles.Get(p).flags.blocked
  }

  /** A walled board leaves room for open views: whatever covers its interior lies around a viewer n cells from the walls. */
  lemma InteriorLiesAround(v: View, n: nat, ground: Tile)
    requires Walled(v.tiles) && forall p | Interior(v.tiles.size, p) :: v.tiles.Get(p) == ground
    requires Interior(v.tiles.size, v.pos.Minus(Point(n, n))) && Interior(v.tiles.size, v.pos.Plus(Point(n, n)))
    ensures ground == GRASS ==> OpenAround(v, n)
    ensures ground == TALL_GRASS ==> GrassAround(v, n)
  {
    forall p: Point | 0 < p.LenWalking() <= n
      ensures v.FlagsAt(p) == ground.flags
    {
      assert Interior(v.tiles.size, p.Plus(v.pos));
    }
  }

  ghost predicate Grounded(tiles: TileMap, positions: map<B.Entity, Point>) {
    forall e | e in positions :: !tiles.Get(positions[e]).flags.blocked
  }

  /** Every glyph that can be drawn takes two columns. */
  ghost predicate AllWide(board: B.Board)
    reads board`tiles, board`entities
  {
    && (forall p :: board.tiles.Get(p).glyph.ch >= Wide(' ', NO_COLOR).ch)
    && (forall e | e in board.entities :: e.glyph.ch >= Wide(' ', NO_COLOR).ch)
  }

  /** No two entities share a cell, and none leaves the interior of the board. */
  lemma EntitiesStayApartInside(board: B.Board, e: B.Entity, f: B.Entity)
    requires board.Valid() && Walled(board.tiles) && Grounded(board.tiles, board.Positions())
    requires e in board.entities && f in board.entities && e != f
    ensures e.pos != f.pos && Interior(board.tiles.size, e.pos)
    ensures board.entityAtPos[e.pos] == e
  {
    board.PositionOf(e);
    board.PositionOf(f);
  }

  // ----- actions -----

  /** Whether an action of an entity at pos counts as done. */
  predicate Succeeds(tiles: TileMap, entityAtPos: map<Point, B.Entity>, pos: Point, action: Action) {
    match action
    case Idle => true
    case Move(step) =>
      var to := pos.Plus(step);
      to == pos || (!tiles.Get(to).flags.blocked && to !in entityAtPos)
    case WaitForInput => false
  }

  function Landing(tiles: TileMap, entityAtPos: map<Point, B.Entity>, pos: Point, action: Action): Point {
    if action.Move? && Succeeds(tiles, entityAtPos, pos, action) then pos.Plus(action.step) else pos
  }

  lemma GroundedAfterAct(tiles: TileMap, entityAtPos: map<Point, B.Entity>, positions: map<B.Entity, Point>,
                         entity: B.Entity, action: Action)
    requires Grounded(tiles, positions) && entity in positions
    ensures Grounded(tiles, positions[entity := Landing(tiles, entityAtPos, positions[entity], action)])
  {}

  method Act(board: B.Board, entity: B.Entity, action: Action) returns (success: bool)
    requires board.Valid() && entity in board.entities
    modifies board`entityAtPos, entity`pos, board.vision.Values`dirty
    ensures board.Valid()
    ensures success == old(Succeeds(board.tiles, board.entityAtPos, entity.pos, action))
    ensures board.Positions() ==
            old(board.Positions()[entity := Landing(board.tiles, board.entityAtPos, entity.pos, action)])
    ensures success <==>
            action == Idle || (action.Move? && (action.step == ORIGIN || old(board.IsOpen(entity.pos.Plus(action.step)))))
    ensures board.Positions() ==
            if success && action.Move? then old(board.Positions()[entity := entity.pos.Plus(action.step)])
            else old(board.Positions())
  {
    board.PositionOf(entity);
    if action.Move? { board.StatusIs(entity.pos.Plus(action.step)); }
    match action
    case Idle => success := true;
    case Move(step) =>
      var pos := entity.pos.Plus(step);
      if pos == entity.pos {
        return true;
      }
      if board.GetStatus(pos) != B.Free {
        return false;
      }
      board.MoveEntity(entity, pos);
      success := true;
    case WaitForInput => success := false;
  }

  // ----- setting up -----

  function Centre(size: Point): Point
    requires size.x >= 0 && size.y >= 0
  {
    Point(size.x / 2, size.y / 2)
  }

  predicate LeavesCentreFree(size: Point, rolls: (Rolls, Rolls))
    requires size.x >= 0 && size.y >= 0
  {
    InBounds(size, Centre(size)) && TileAt(size, rolls.0, rolls.1, Centre(size)) != TREE
  }

  /** The board is not so narrow that its middle fills up whatever is drawn. */
  predicate HasMiddle(size: Point) {
    var short, long := Min(size.x, size.y), Max(size.x, size.y);
    short >= 6 || (short == 5 && long >= 6) || (short == 4 && long >= 9)
  }

  lemma FreeCentreIs(size: Point, rolls: (Rolls, Rolls))
    requires size.x >= 0 && size.y >= 0
    ensures LeavesCentreFree(size, rolls) <==>
            InBounds(size, Centre(size)) && !Generation(size, rolls.0, 3)(Centre(size))
  {
    hide Generation;
    assert TALL_GRASS.flags != TREE.flags && GRASS.flags != TREE.flags;
  }

  /** Exchanging the axes of a draw exchanges those of the board. */
  lemma DrawTransposed(size: Point, rolls: (Rolls, Rolls)) returns (rolls': (Rolls, Rolls))
    requires size.x >= 0 && size.y >= 0 && LeavesCentreFree(size, rolls)
    ensures LeavesCentreFree(Transpose(size), rolls')
  {
    rolls' := ((p: Point) => rolls.0(Transpose(p)), (p: Point) => rolls.1(Transpose(p)));
    FreeCentreIs(size, rolls);
    FreeCentreIs(Transpose(size), rolls');
    forall p ensures rolls'.0(Transpose(p)) == rolls.0(p) {
      assert Transpose(Transpose(p)) == p;
    }
    GenerationTransposed(size, rolls.0, rolls'.0, 3, Centre(size));
  }

  lemma CentreOfNarrowFills(size: Point, rolls: (Rolls, Rolls))
    requires 0 <= size.x <= size.y && !HasMiddle(size)
    ensures !LeavesCentreFree(size, rolls)
  {
    hide Generation;
    var centre := Centre(size);
    FreeCentreIs(size, rolls);
    if size.x <= 2 {
      BorderLives(size, rolls.0, 3, centre);
    } else if size.x == 3 {
      ThreeWideFills(size, rolls.0, 3, centre);
    } else if size.x == 4 {
      FourWideErodes(size, rolls.0, 3, centre);
    } else {
      BoxFills(rolls.0);
    }
  }

  lemma CentreOfWideStaysFree(size: Point) returns (rolls: (Rolls, Rolls))
    requires 0 <= size.x <= size.y && HasMiddle(size)
    ensures LeavesCentreFree(size, rolls)
  {
    hide Generation;
    var centre := Centre(size);
    if size.x >= 6 {
      rolls := (RoomRolls(centre), RoomRolls(centre));
      RoomLasts(size, centre, 3, centre);
    } else {
      rolls := (NoRolls(), NoRolls());
      if size.x == 4 { FourWideLasts(size, 3, centre); } else { FiveWideCentre(size, centre); }
    }
    FreeCentreIs(size, rolls);
  }

  /** The search for a board that leaves the centre free can end if and only if the board is large enough. */
  lemma SomeDrawLeavesCentreFree(size: Point)
    requires size.x >= 0 && size.y >= 0
    ensures (exists rolls: (Rolls, Rolls) :: LeavesCentreFree(size, rolls)) <==> HasMiddle(size)
  {
    hide LeavesCentreFree;
    assert Transpose(Transpose(size)) == size;
    if size.x <= size.y {
      if HasMiddle(size) {
        var rolls := CentreOfWideStaysFree(size);
      }
      forall rolls: (Rolls, Rolls) | LeavesCentreFree(size, rolls) ensures HasMiddle(size) {
        if !HasMiddle(size) { CentreOfNarrowFills(size, rolls); }
      }
    } else {
      if HasMiddle(size) {
        var rolls := CentreOfWideStaysFree(Transpose(size));
        var rolls' := DrawTransposed(Transpose(size), rolls);
      }
      forall rolls: (Rolls, Rolls) | LeavesCentreFree(size, rolls) ensures HasMiddle(size) {
        var rolls' := DrawTransposed(size, rolls);
        if !HasMiddle(size) { CentreOfNarrowFills(Transpose(size), rolls'); }
      }
    }
  }

  lemma InitialBoardIsWalled(tiles: TileMap, wallRolls: Rolls, grassRolls: Rolls)
    requires tiles.init == TREE
    requires forall p :: tiles.Get(p) ==
                         if InBounds(tiles.size, p) then TileAt(tiles.size, wallRolls, grassRolls, p) else tiles.init
    ensures Walled(tiles)
  {
    forall p | !Interior(tiles.size, p)
      ensures tiles.Get(p).flags.blocked
    {
      BorderLives(tiles.size, wallRolls, 3, p);
    }
  }

  /** A clock that has not run yet. */
  predicate JustAdded(c: B.Clock) {
    1 <= c.charge <= B.TURN_TIMER && c == B.Clock(c.charge, 0, 0, 0, 0)
  }

  /** Up to a hundred random cells are tried. */
  method FindFree(board: B.Board) returns (pos: Option<Point>)
    requires board.tiles.size.x > 0 && board.tiles.size.y > 0
    ensures pos.Some? ==> InBounds(board.tiles.size, pos.value) && board.GetStatus(pos.value) == B.Free
  {
    for j := 0 to 100 {
      var x, y :| 0 <= x < board.tiles.size.x && 0 <= y < board.tiles.size.y;
      if board.GetStatus(Point(x, y)) == B.Free {
        return Some(Point(x, y));
      }
    }
    pos := None;
  }

  /** The first of the draws that leaves the centre free. */
  ghost predicate IsFirstGood(size: Point, attempts: seq<(Rolls, Rolls)>, k: int)
    requires size.x >= 0 && size.y >= 0
  {
    && 0 <= k < |attempts| && LeavesCentreFree(size, attempts[k])
    && forall j | 0 <= j < k :: !LeavesCentreFree(size, attempts[j])
  }

  /** The tiles that a draw makes. */
  ghost predicate IsDrawn(tiles: TileMap, rolls: (Rolls, Rolls)) {
    forall p :: tiles.Get(p) ==
                if InBounds(tiles.size, p) then TileAt(tiles.size, rolls.0, rolls.1, p) else TREE
  }

  /** Draws boards until one leaves the centre free. */
  method DrawBoard(size: Point, radius: nat, sight: nat, attempts: seq<(Rolls, Rolls)>) returns (b: B.Board)
    requires size.x >= 0 && size.y >= 0 && sight >= 1
    requires exists k :: 0 <= k < |attempts| && LeavesCentreFree(size, attempts[k])
    ensures b.Valid() && fresh(b) && fresh(b.fov) && fresh(b.fov.nodes)
    ensures b.tiles.size == size && b.sight == sight && b.fov.radius == radius && Walled(b.tiles)
    ensures b.entities == [] && b.entityAtPos == map[] && b.vision == map[]
    ensures b.GetStatus(Centre(size)) == B.Free
    ensures exists k :: IsFirstGood(size, attempts, k) && IsDrawn(b.tiles, attempts[k])
    ensures forall p :: b.tiles.Get(p).glyph.ch >= Wide(' ', NO_COLOR).ch
  {
    hide B.Board.Valid, Walled, IsDrawn, Matrix.Get, LeavesCentreFree, B.Board.GetStatus;
    b := new B.Board(size, radius, sight, TREE);
    var k := 0;
    while true
      invariant b.Valid() && fresh(b.fov.nodes) && b.tiles.size == size && b.tiles.init == TREE
      invariant b.vision == map[] && b.entities == [] && b.entityAtPos == map[]
      invariant exists j :: k <= j < |attempts| && LeavesCentreFree(size, attempts[j])
      invariant forall j | 0 <= j < k :: !LeavesCentreFree(size, attempts[j])
      decreases |attempts| - k
    {
      var found := TryBoard(b, attempts[k]);
      if found {
        assert IsFirstGood(size, attempts, k);
        break;
      }
      k := k + 1;
    }
  }

  method TryBoard(b: B.Board, rolls: (Rolls, Rolls)) returns (found: bool)
    requires b.Valid() && b.vision == map[] && b.entities == [] && b.entityAtPos == map[] && b.tiles.init == TREE
    modifies b`tiles
    ensures b.Valid() && b.tiles.size == old(b.tiles.size) && b.tiles.init == TREE && Walled(b.tiles)
    ensures forall p :: b.tiles.Get(p).glyph.ch >= Wide(' ', NO_COLOR).ch
    ensures IsDrawn(b.tiles, rolls)
    ensures found == (b.GetStatus(Centre(b.tiles.size)) == B.Free) == LeavesCentreFree(b.tiles.size, rolls)
  {
    hide B.Board.Valid, Generation;
    var start := Point(b.tiles.size.x / 2, b.tiles.size.y / 2);
    InitBoard(b, rolls.0, rolls.1);
    InitialBoardIsWalled(b.tiles, rolls.0, rolls.1);
    found := b.GetStatus(start) == B.Free;
  }

  /** Adds the player to an empty board, and then up to five others wherever a random cell is free. */
  method Populate(b: B.Board, start: Point) returns (p: B.Entity)
    requires b.Valid() && b.entities == [] && b.entityAtPos == map[] && Walled(b.tiles)
    requires forall p :: b.tiles.Get(p).glyph.ch >= Wide(' ', NO_COLOR).ch
    requires b.GetStatus(start) == B.Free
    modifies b`entities, b`entityAtPos
    ensures b.Valid() && b.entityIndex == 0 && AllWide(b)
    ensures 1 <= |b.entities| <= 6 && b.entities[0] == p && p.pos == start && !p.removed
    ensures forall e | e in b.entities :: (e.isPlayer <==> e == p) && e.charge == if e == p then 12 else 40
    ensures fresh(set e | e in b.entities)
    ensures AllOnTime(b.Times()) && Fair(b.entities, 0, b.Times(), 0) && Grounded(b.tiles, b.Positions())
  {
    hide B.Board.Valid, AllOnTime, Fair, Grounded, Walled, AllWide;
    b.NobodyActive();
    CentreIsInside(b.tiles, start);
    hide IsNewcomer;
    p := AddPlayer(b, start);
    AddPidgeys(b, p);
    NewcomersAreFair(b);
  }

  method AddPlayer(b: B.Board, start: Point) returns (p: B.Entity)
    requires b.Valid() && b.entities == [] && b.entityAtPos == map[] && b.GetStatus(start) == B.Free
    modifies b`entities, b`entityAtPos
    ensures b.Valid() && b.entities == [p] && fresh(p) && p.isPlayer && p.pos == start && !p.removed && IsNewcomer(b.tiles, p)
  {
    hide B.Board.Valid;
    p := new B.Entity(true, start, Wide('@', NO_COLOR), 12);
    b.AddEntity(p);
  }

  method AddPidgeys(b: B.Board, ghost p: B.Entity)
    requires b.Valid() && b.tiles.size.x > 0 && b.tiles.size.y > 0 && b.entities == [p]
    requires forall e | e in b.entities :: (e.isPlayer <==> e == p) && IsNewcomer(b.tiles, e)
    modifies b`entities, b`entityAtPos
    ensures b.Valid() && 1 <= |b.entities| <= 6 && b.entities[0] == p
    ensures fresh((set e | e in b.entities) - {p})
    ensures forall e | e in b.entities :: (e.isPlayer <==> e == p) && IsNewcomer(b.tiles, e)
  {
    hide B.Board.Valid, IsNewcomer;
    for i := 0 to 5
      invariant b.Valid() && fresh((set e | e in b.entities) - {p})
      invariant 1 <= |b.entities| <= i + 1 && b.entities[0] == p
      invariant forall e | e in b.entities :: (e.isPlayer <==> e == p) && IsNewcomer(b.tiles, e)
    {
      AddPidgey(b, p);
    }
  }

  method AddPidgey(b: B.Board, ghost p: B.Entity)
    requires b.Valid() && b.tiles.size.x > 0 && b.tiles.size.y > 0
    requires p in b.entities && forall e | e in b.entities :: (e.isPlayer <==> e == p) && IsNewcomer(b.tiles, e)
    modifies b`entities, b`entityAtPos
    ensures b.Valid() && old(b.entities) <= b.entities && |b.entities| <= |old(b.entities)| + 1
    ensures fresh((set e | e in b.entities) - old(set e | e in b.entities))
    ensures forall e | e in b.entities :: (e.isPlayer <==> e == p) && IsNewcomer(b.tiles, e)
  {
    hide B.Board.Valid;
    var pos := FindFree(b);
    if pos.Some? {
      var pidgey := new B.Entity(false, pos.value, Wide('P', NO_COLOR), 40);
      b.AddEntity(pidgey);
      assert IsNewcomer(b.tiles, pidgey);
      hide IsNewcomer;
    }
  }

  /** On open ground, with a clock that has not run and a glyph two columns wide. */
  ghost predicate IsNewcomer(tiles: TileMap, e: B.Entity)
    reads e`pos, e`moveTimer, e`turnTimer, e`turns, e`advances
  {
    JustAdded(e.Time()) && e.charge == (if e.isPlayer then 12 else 40) && !tiles.Get(e.pos).flags.blocked && e.glyph.ch >= Wide(' ', NO_COLOR).ch
  }

  lemma NewcomersAreFair(b: B.Board)
    requires forall e | e in b.entities :: IsNewcomer(b.tiles, e)
    ensures AllOnTime(b.Times()) && Fair(b.entities, 0, b.Times(), 0) && Grounded(b.tiles, b.Positions())
    ensures (forall p :: b.tiles.Get(p).glyph.ch >= Wide(' ', NO_COLOR).ch) ==> AllWide(b)
    ensures forall e | e in b.entities :: e.charge == if e.isPlayer then 12 else 40
  {}

  lemma CentreIsInside(tiles: TileMap, p: Point)
    requires Walled(tiles) && !tiles.Get(p).flags.blocked
    ensures tiles.size.x > 0 && tiles.size.y > 0
  {}

  // ----- one iteration of the loop, on values -----

  /** What the loop of updateState looks at, at one moment. */
  datatype Moment = Moment(index: nat, active: bool, activeTimer: int, input: Option<Action>,
                           pos: Point, timer: int, turns: int, entityAtPos: map<Point, B.Entity>) {
    /** What the player will do if asked. */
    function Choice(): Action {
      if input == None then WaitForInput else input.value
    }

    /** Keys are only read while the player is the active entity. */
    function AfterInput(keys: seq<Keys.Input>): Moment {
      if active then this.(input := FirstMove(keys, input)) else this
    }

    /** The promise of updateState for a start whose keys have been read. */
    ghost predicate UpdatesTo(tiles: TileMap, end: Moment) {
      // The loop stops when the player is active, ready, and has nothing left to do.
      && end.active && end.timer <= 0 && end.input == None
      // At most one action of the player has been done, and only one that was pending.
      && (end.turns == turns || (end.turns == turns + 1 && input.Some?))
      && (end.turns == turns ==> end.pos == pos)
      && (end.turns == turns + 1 ==> end.pos == pos || (Choice().Move? && end.pos == pos.Plus(Choice().step)))
      // A player who is asked at once does exactly what was pending, if it can be done.
      && (active && timer <= 0 ==>
            && (end.turns == turns + 1 <==> Succeeds(tiles, entityAtPos, pos, Choice()))
            && end.pos == Landing(tiles, entityAtPos, pos, Choice()))
    }
  }

  /** From one cell a step to one of the eight around it has been tried. */
  ghost predicate HasWandered(tiles: TileMap, entityAtPos: map<Point, B.Entity>, from: Point, to: Point) {
    exists step: Point :: step.LenWalking() == 1 &&
      var on := from.Plus(step);
      to == if !tiles.Get(on).flags.blocked && on !in entityAtPos then on else from
  }

  ghost predicate StepLaw(size: nat, tiles: TileMap, m: Moment, stop: bool, n: Moment) {
    if m.activeTimer > 0 then
      // Someone's timer is running: it is charged and the ring moves on.
      && !stop && n.input == m.input && n.turns == m.turns && n.pos == m.pos && n.entityAtPos == m.entityAtPos
      && n.index == (if m.index + 1 < size then m.index + 1 else 0)
      && (if m.active then n.timer < m.timer else n.timer == m.timer)
    else if !m.active then
      // Someone else is ready: it acts and waits, and the player is not touched.
      && !stop && n.input == m.input && n.turns == m.turns && n.pos == m.pos && n.timer == m.timer
      && n.index == m.index && n.activeTimer == m.activeTimer + B.TURN_TIMER
    else
      // The player is ready: the pending action is used up, and the loop goes on only if it succeeds.
      && n.input == None && n.index == m.index && n.active
      && stop == !Succeeds(tiles, m.entityAtPos, m.pos, m.Choice())
      && n.pos == Landing(tiles, m.entityAtPos, m.pos, m.Choice())
      && n.turns == m.turns + (if stop then 0 else 1)
      && (stop ==> n.timer == m.timer)
  }

  /** How many advances it takes to come round to a place in the ring. */
  function RingDistance(at: nat, index: nat, size: nat): nat
    requires at < size && index < size
  {
    if at >= index then at - index else at + size - index
  }

  function Backlog(timer: int): nat {
    if timer <= 0 then 1 - timer else 0
  }

  /** Pending input, then the player's timer, then the way round the ring, then the turns someone is owed. */
  lemma StepLawDecreases(at: nat, size: nat, tiles: TileMap, m: Moment, stop: bool, n: Moment)
    requires at < size && m.index < size && n.index < size && StepLaw(size, tiles, m, stop, n)
    requires (m.active <==> m.index == at) && (n.active <==> n.index == at)
    requires m.active ==> m.activeTimer == m.timer
    ensures stop
         || (m.input.Some? && n.input == None)
         || (n.input == m.input &&
             (Max(n.timer, 0) < Max(m.timer, 0) ||
              (n.timer == m.timer &&
               (RingDistance(at, n.index, size) < RingDistance(at, m.index, size) ||
                (n.index == m.index && Backlog(n.activeTimer) < Backlog(m.activeTimer))))))
  {}

  /** Between iterations: either the pending action is still there and nothing of the player's has changed, or it is done. */
  ghost predicate Underway(tiles: TileMap, start: Moment, stop: bool, m: Moment) {
    && (m.active ==> m.activeTimer == m.timer)
    && if stop then start.UpdatesTo(tiles, m)
       else if m.turns == start.turns then
         && m.input == start.input && m.pos == start.pos
         && (start.active && start.timer <= 0 ==> m.active && m.timer <= 0 && m.entityAtPos == start.entityAtPos)
       else
         && m.turns == start.turns + 1 && m.input == None && start.input.Some?
         && (m.pos == start.pos || (start.Choice().Move? && m.pos == start.pos.Plus(start.Choice().step)))
         && (start.active && start.timer <= 0 ==>
               && Succeeds(tiles, start.entityAtPos, start.pos, start.Choice())
               && m.pos == Landing(tiles, start.entityAtPos, start.pos, start.Choice()))
  }

  lemma StartUnderway(tiles: TileMap, start: Moment)
    requires start.active ==> start.activeTimer == start.timer
    ensures Underway(tiles, start, false, start)
  {}

  lemma StaysUnderway(size: nat, tiles: TileMap, start: Moment, m: Moment, stop: bool, n: Moment)
    requires Underway(tiles, start, false, m) && StepLaw(size, tiles, m, stop, n)
    requires n.active ==> n.activeTimer == n.timer
    ensures Underway(tiles, start, stop, n)
  {}

  lemma UnderwayEnds(tiles: TileMap, start: Moment, m: Moment)
    requires Underway(tiles, start, true, m)
    ensures start.UpdatesTo(tiles, m)
  {}

  lemma PromptPlayer(tiles: TileMap, was: Moment, keys: seq<Keys.Input>, end: Moment)
    requires was.active && was.timer <= 0 && was.input == None && was.AfterInput(keys).UpdatesTo(tiles, end)
    ensures forall i: nat | IsFirstDirection(keys, i) ::
              var step := StepFor(keys[i]).value;
              var to := was.pos.Plus(step);
              && AfterMove(keys, None) == keys[i + 1..]
              && if step == ORIGIN || (!tiles.Get(to).flags.blocked && to !in was.entityAtPos)
                 then end.pos == to && end.turns == was.turns + 1
                 else end.pos == was.pos && end.turns == was.turns
    ensures (forall key <- keys :: StepFor(key) == None) ==>
            AfterMove(keys, None) == [] && end.pos == was.pos && end.turns == was.turns
  {
    hide FirstMove, AfterMove, StepFor, Matrix.Get;
    forall i: nat | IsFirstDirection(keys, i)
      ensures FirstMove(keys, None) == Some(Move(StepFor(keys[i]).value)) && AfterMove(keys, None) == keys[i + 1..]
    {
      FirstDirectionIsTaken(keys, i);
    }
    if forall key <- keys :: StepFor(key) == None {
      NoDirectionIsTaken(keys);
    }
  }

  // ----- the state of the game -----

  class State {
    const board: B.Board
    const player: B.Entity
    var input: Option<Action>
    ghost var rounds: nat

    ghost predicate Valid()
      reads this`rounds, board, board.fov`nodes, board.fov.nodes`children, board.vision.Values
      reads board.entities`pos, board.entities`moveTimer, board.entities`turnTimer
      reads board.entities`turns, board.entities`advances
    {
      && board.Valid() && board.entityIndex < |board.entities|
      && player in board.entities && (forall e | e in board.entities :: e.isPlayer <==> e == player)
      && Walled(board.tiles) && Grounded(board.tiles, board.Positions())
      && AllOnTime(board.Times())
      && Fair(board.entities, board.entityIndex, board.Times(), rounds)
    }

    /** A fresh board with the player in the middle of it and up to five others around. */
    constructor (size: Point, radius: nat, sight: nat, attempts: seq<(Rolls, Rolls)>)
      requires size.x >= 0 && size.y >= 0 && sight >= 1
      requires exists k :: 0 <= k < |attempts| && LeavesCentreFree(size, attempts[k])
      ensures Valid() && input == None && AllWide(board)
      ensures fresh(board) && fresh(board.fov) && fresh(set e | e in board.entities) && board.vision == map[]
      ensures exists k :: IsFirstGood(size, attempts, k) && IsDrawn(board.tiles, attempts[k])
      ensures board.tiles.size == size && board.sight == sight && board.fov.radius == radius
      ensures player.pos == Point(size.x / 2, size.y / 2) && !player.removed
      ensures 1 <= |board.entities| <= 6 && board.entities[0] == player
    {
      hide B.Board.Valid, Walled, AllWide, AllOnTime, Fair, Grounded, LeavesCentreFree, IsFirstGood, IsDrawn;
      var b := DrawBoard(size, radius, sight, attempts);
      var start := Point(size.x / 2, size.y / 2);
      var p := Populate(b, start);
      board, player, input, rounds := b, p, None, 0;
    }

    /** The player's input is taken once; everyone else moves in one of the eight directions. */
    method Plan(entity: B.Entity) returns (action: Action)
      modifies this`input
      ensures !entity.isPlayer ==> action.Move? && action.step in STEPS && input == old(input)
      ensures entity.isPlayer ==> input == None && action == if old(input) == None then WaitForInput else old(input).value
    {
      if !entity.isPlayer {
        var roll :| 0 <= roll < |STEPS|;
        return Move(STEPS[roll]);
      }
      if input == None {
        return WaitForInput;
      }
      action := input.value;
      input := None;
    }

    method ProcessInput(key: Keys.Input)
      modifies this`input
      ensures input == if StepFor(key).Some? then Some(Move(StepFor(key).value)) else old(input)
    {
      var dir := StepFor(key);
      if dir.Some? {
        input := Some(Move(dir.value));
      }
    }

    method ReadInput(keys: seq<Keys.Input>) returns (rest: seq<Keys.Input>)
      modifies this`input
      ensures rest == AfterMove(keys, old(input)) && input == FirstMove(keys, old(input))
    {
      rest := keys;
      while rest != [] && input == None
        invariant AfterMove(keys, old(input)) == AfterMove(rest, input)
        invariant FirstMove(keys, old(input)) == FirstMove(rest, input)
        decreases |rest|
      {
        ProcessInput(rest[0]);
        rest := rest[1..];
      }
    }

    method Advance()
      requires Valid()
      requires board.GetActiveEntity().turnTimer > 0
      modifies this`rounds, board`entityIndex
      modifies board.GetActiveEntity()`moveTimer, board.GetActiveEntity()`turnTimer, board.GetActiveEntity()`advances
      ensures Valid()
      ensures board.entityIndex == if old(board.entityIndex) + 1 < |board.entities| then old(board.entityIndex) + 1 else 0
      ensures board.Times() == old(board.Times()[board.GetActiveEntity() := board.GetActiveEntity().Time().Advanced()])
    {
      hide B.Board.Valid, B.Board.Positions, B.Board.Times, AllOnTime, Fair, Grounded, Walled;
      board.SomebodyActive();
      var entity := board.GetActiveEntity();
      board.TimeOf(entity);
      FairAfterAdvance(board.entities, board.entityIndex, board.Times(), rounds);
      AllOnTimeAfterAdvance(board.Times(), entity);
      board.AdvanceEntity();
      if board.entityIndex == 0 {
        rounds := rounds + 1;
      }
    }

    method ActNow(entity: B.Entity, action: Action) returns (success: bool)
      requires Valid() && entity in board.entities
      modifies board`entityAtPos, entity`pos, board.vision.Values`dirty
      ensures Valid()
      ensures success == old(Succeeds(board.tiles, board.entityAtPos, entity.pos, action))
      ensures board.Positions() ==
              old(board.Positions()[entity := Landing(board.tiles, board.entityAtPos, entity.pos, action)])
    {
      hide B.Board.Valid, B.Board.Positions, B.Board.Times, AllOnTime, Fair, Grounded, Walled, Landing;
      board.PositionOf(entity);
      GroundedAfterAct(board.tiles, board.entityAtPos, board.Positions(), entity, action);
      success := Act(board, entity, action);
    }

    method PlanAndAct(entity: B.Entity) returns (success: bool)
      requires Valid() && entity in board.entities
      modifies this`input, board`entityAtPos, entity`pos, board.vision.Values`dirty
      ensures Valid()
      ensures entity != player ==>
                input == old(input) && HasWandered(board.tiles, old(board.entityAtPos), old(entity.pos), entity.pos)
      ensures entity == player ==>
                var action := if old(input) == None then WaitForInput else old(input).value;
                && input == None
                && success == Succeeds(board.tiles, old(board.entityAtPos), old(entity.pos), action)
                && entity.pos == Landing(board.tiles, old(board.entityAtPos), old(entity.pos), action)
    {
      hide B.Board.Valid, B.Board.Positions, B.Board.Times, AllOnTime, Fair, Grounded, Walled;
      board.PositionOf(entity);
      var action := Plan(entity);
      success := ActNow(entity, action);
      board.PositionOf(entity);
      if action.Move? { StepsAreTheEight(action.step); }
    }

    method WaitOneTurn(entity: B.Entity)
      requires Valid() && entity in board.entities && entity.turnTimer <= 0
      modifies entity`moveTimer, entity`turnTimer, entity`turns
      ensures Valid()
      ensures board.Times() == old(board.Times()[entity := entity.Time().Waited(0, 1)])
    {
      hide B.Board.Valid, B.Board.Positions, AllOnTime, Fair, Grounded, Walled;
      board.TimeOf(entity);
      FairAfterWait(board.entities, board.entityIndex, board.Times(), rounds, entity);
      AllOnTimeAfterWait(board.Times(), entity);
      B.Wait(entity, 0, 1);
      assert board.Times() == old(board.Times()[entity := entity.Time().Waited(0, 1)]);
    }

    lemma Basics()
      requires Valid()
      ensures board.entityIndex < |board.entities|
      ensures player in board.Times() && player in board.Positions()
      ensures board.Times()[player] == player.Time() && board.Positions()[player] == player.pos
      ensures player.charge >= 1
    {
      board.SomebodyActive();
      board.TimeOf(player);
      board.PositionOf(player);
      assert OnTime(board.Times()[player]);
    }

    ghost function Now(): Moment
      requires board.entityIndex < |board.entities|
      reads this`input, board`entityIndex, board`entities, board`entityAtPos
      reads player`pos, player`turnTimer, player`turns, board.entities`turnTimer
    {
      var active := board.GetActiveEntity();
      Moment(board.entityIndex, active == player, active.turnTimer,
             input, player.pos, player.turnTimer, player.turns, board.entityAtPos)
    }

    /** The body of the loop of updateState; stop is its break. */
    method Step() returns (stop: bool)
      requires Valid() && !player.removed
      modifies this`input, this`rounds
      modifies board`entityIndex, board`entityAtPos, board.vision.Values`dirty
      modifies board.entities`pos, board.entities`moveTimer, board.entities`turnTimer
      modifies board.entities`turns, board.entities`advances
      ensures Valid() && board.entityIndex < |board.entities|
      ensures StepLaw(|board.entities|, board.tiles, old(Now()), stop, Now())
      ensures forall e | e in board.entities && e != old(board.GetActiveEntity()) :: e.pos == old(e.pos)
      ensures old(board.GetActiveEntity().turnTimer > 0) ==> board.Positions() == old(board.Positions())
      ensures old(board.GetActiveEntity().turnTimer <= 0 && board.GetActiveEntity() != player) ==>
                HasWandered(board.tiles, old(board.entityAtPos), old(board.GetActiveEntity().pos), old(board.GetActiveEntity()).pos)
    {
      hide B.Board.Valid, B.Board.Positions, B.Board.Times, AllOnTime, Fair, Grounded, Walled;
      Basics();
      var entity := board.GetActiveEntity();
      board.TimeOf(entity);
      if !(entity.turnTimer <= 0) {
        Advance();
        Basics();
        return false;
      }
      var success := PlanAndAct(entity);
      Basics();
      if !success && entity == player {
        return true;
      }
      WaitOneTurn(entity);
      Basics();
      board.TimeOf(entity);
      stop := false;
    }

    /** The player's keys are read if it is the player's turn to act. */
    method BeginUpdate(keys: seq<Keys.Input>) returns (rest: seq<Keys.Input>)
      requires Valid()
      modifies this`input
      ensures Valid() && board.entityIndex < |board.entities|
      ensures rest == if old(!player.removed && Now().active) then AfterMove(keys, old(input)) else keys
      ensures Now() == if player.removed then old(Now()) else old(Now()).AfterInput(keys)
      ensures Now().active ==> Now().activeTimer == Now().timer
    {
      hide B.Board.Valid, FirstMove, AfterMove, Walled, Grounded, AllOnTime, Fair;
      Basics();
      rest := keys;
      if !player.removed && player == board.GetActiveEntity() {
        rest := ReadInput(keys);
      }
    }

    /** Runs everyone until the player has to choose; at most one of the player's actions is done on the way. */
    method UpdateState(keys: seq<Keys.Input>) returns (rest: seq<Keys.Input>)
      requires Valid()
      modifies this`input, this`rounds
      modifies board`entityIndex, board`entityAtPos, board.vision.Values`dirty
      modifies board.entities`pos, board.entities`moveTimer, board.entities`turnTimer
      modifies board.entities`turns, board.entities`advances
      ensures Valid() && board.entityIndex < |board.entities|
      ensures rest == if old(!player.removed && Now().active) then AfterMove(keys, old(input)) else keys
      ensures player.removed ==> Now() == old(Now())
      ensures !player.removed ==> old(Now()).AfterInput(keys).UpdatesTo(board.tiles, Now())
    {
      hide Valid, FirstMove, AfterMove, StepLaw, Underway, Moment.UpdatesTo, Moment.AfterInput, RingDistance;
      Basics();
      ghost var at := PlayersPlace();
      rest := BeginUpdate(keys);
      ghost var start := Now();
      var stop := false;
      StartUnderway(board.tiles, start);
      while !player.removed && !stop
        invariant Valid() && board.entityIndex < |board.entities|
        invariant player.removed ==> Now() == old(Now())
        invariant !player.removed ==> Underway(board.tiles, start, stop, Now())
        decreases if stop then 0 else 1,
                  if input.Some? then 1 else 0,
                  Max(player.turnTimer, 0),
                  RingDistance(at, board.entityIndex, |board.entities|),
                  Backlog(board.GetActiveEntity().turnTimer)
      {
        ghost var before := Now();
        stop := Step();
        StepLawDecreases(at, |board.entities|, board.tiles, before, stop, Now());
        StaysUnderway(|board.entities|, board.tiles, start, before, stop, Now());
      }
      if !player.removed {
        UnderwayEnds(board.tiles, start, Now());
      }
    }

    /** A player who is asked at once steps the way of the first key that names a direction, if the board lets it. */
    method Update(keys: seq<Keys.Input>) returns (rest: seq<Keys.Input>)
      requires Valid()
      modifies this`input, this`rounds
      modifies board`entityIndex, board`entityAtPos, board.vision.Values`dirty
      modifies board.entities`pos, board.entities`moveTimer, board.entities`turnTimer
      modifies board.entities`turns, board.entities`advances
      ensures Valid() && board.entityIndex < |board.entities|
      ensures rest == if old(!player.removed && Now().active) then AfterMove(keys, old(input)) else keys
      ensures player.removed ==> Now() == old(Now())
      ensures !player.removed ==> old(Now()).AfterInput(keys).UpdatesTo(board.tiles, Now())
      ensures old(!player.removed && Now().active && player.turnTimer <= 0 && input == None) ==>
                forall i: nat | IsFirstDirection(keys, i) ::
                  var step := StepFor(keys[i]).value;
                  var to := old(player.pos).Plus(step);
                  && rest == keys[i + 1..]
                  && if step == ORIGIN || old(board.IsOpen(to))
                     then player.pos == to && player.turns == old(player.turns) + 1
                     else player.pos == old(player.pos) && player.turns == old(player.turns)
      ensures old(!player.removed && Now().active && player.turnTimer <= 0 && input == None) ==>
                (forall key <- keys :: StepFor(key) == None) ==>
                rest == [] && player.pos == old(player.pos) && player.turns == old(player.turns)
    {
      hide Valid, FirstMove, AfterMove, Moment.UpdatesTo, Moment.AfterInput, B.Board.IsOpen, StepFor;
      Basics();
      CellsAreOpen();
      ghost var was := Now();
      rest := UpdateState(keys);
      if !player.removed && was.active && was.timer <= 0 && was.input == None {
        PromptPlayer(board.tiles, was, keys, Now());
      }
    }

    lemma CellsAreOpen()
      requires Valid()
      ensures forall p :: board.IsOpen(p) <==> !board.tiles.Get(p).flags.blocked && p !in board.entityAtPos
    {
      hide B.Board.Valid, B.Board.IsOpen;
      forall p
        ensures board.IsOpen(p) <==> !board.tiles.Get(p).flags.blocked && p !in board.entityAtPos
      {
        board.StatusIs(p);
      }
    }

    lemma PlayersPlace() returns (at: nat)
      requires Valid()
      ensures at < |board.entities|
      ensures forall i :: 0 <= i < |board.entities| ==> (board.entities[i] == player <==> i == at)
    {
      at :| 0 <= at < |board.entities| && board.entities[at] == player;
      board.SomebodyActive();
    }
  }

  /** In every state: the account of each clock balances, and no two entities drift apart. */
  lemma SchedulerIsFair(s: State, e: B.Entity, f: B.Entity)
    requires s.Valid() && e in s.board.entities && f in s.board.entities
    ensures e.turnTimer == 120 * e.turns - e.charge * e.advances
    ensures -e.charge < e.turnTimer <= 120
    ensures e.charge * (e.advances - 1) < 120 * e.turns <= e.charge * e.advances + 120
    ensures f.advances - 1 <= e.advances <= f.advances + 1
    ensures 120 * (e.turns * f.charge - f.turns * e.charge) < 2 * (e.charge * f.charge) + 120 * f.charge
  {
    s.board.TimeOf(e);
    s.board.TimeOf(f);
    FairShare(s.board.entities, s.board.entityIndex, s.board.Times(), s.rounds, e, f);
    assert OnTime(e.Time()) && OnTime(f.Time());
    TurnsFollowCharge(e.Time());
    TurnsAreProportional(e.Time(), f.Time());
  }

  lemma FairShare(entities: seq<B.Entity>, index: nat, times: map<B.Entity, B.Clock>, rounds: nat, e: B.Entity, f: B.Entity)
    requires Fair(entities, index, times, rounds) && e in entities && f in entities
    ensures e in times && f in times && times[f].advances - 1 <= times[e].advances <= times[f].advances + 1
  {
    var i :| 0 <= i < |entities| && entities[i] == e;
    var j :| 0 <= j < |entities| && entities[j] == f;
  }
}

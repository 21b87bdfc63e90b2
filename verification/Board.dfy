/** The game board of game.h and game.cpp: tiles, entities, the index by position, and cached vision. */
module Board {
  import opened Geometry
  import opened Optional
  import opened FovTrie
  import opened Lighting
  import opened Sight

  datatype Status = Free | Blocked | Occupied

  const MOVE_TIMER := 960
  const TURN_TIMER := 120

  /** The timers of an entity, with the number of turns it has taken and of advances it has seen. */
  datatype Clock = Clock(charge: int, moveTimer: int, turnTimer: int, turns: int, advances: nat) {
    /** One advance: a running timer loses the charge. */
    function Advanced(): Clock {
      this.(moveTimer := if moveTimer > 0 then moveTimer - charge else moveTimer,
            turnTimer := if turnTimer > 0 then turnTimer - charge else turnTimer,
            advances := advances + 1)
    }

    /** An action and what it costs. */
    function Waited(moves: int, turns: int): Clock {
      this.(moveTimer := moveTimer + MOVE_TIMER * moves, turnTimer := turnTimer + TURN_TIMER * turns,
            turns := this.turns + turns)
    }
  }

  class Entity {
    const isPlayer: bool
    const glyph: Glyph
    /** What one advance takes off a running timer: TURN_TIMER times the speed, rounded. */
    const charge: int
    var removed: bool
    var pos: Point
    var moveTimer: int
    var turnTimer: int
    ghost var turns: int
    ghost var advances: nat

    constructor (isPlayer: bool, pos: Point, glyph: Glyph, charge: int)
      ensures this.isPlayer == isPlayer && this.pos == pos && this.glyph == glyph && this.charge == charge
      ensures !removed && moveTimer == 0 && turnTimer == 0 && turns == 0 && advances == 0
    {
      this.isPlayer, this.pos, this.glyph, this.charge := isPlayer, pos, glyph, charge;
      removed, moveTimer, turnTimer, turns, advances := false, 0, 0, 0, 0;
    }

    ghost function Time(): Clock
      reads this`moveTimer, this`turnTimer, this`turns, this`advances
    {
      Clock(charge, moveTimer, turnTimer, turns, advances)
    }
  }

  /** charge() of game.cpp. */
  method Charge(entity: Entity)
    modifies entity`moveTimer, entity`turnTimer, entity`advances
    ensures entity.Time() == old(entity.Time()).Advanced()
    ensures entity.turnTimer == old(entity.turnTimer) - if old(entity.turnTimer) > 0 then entity.charge else 0
    ensures entity.moveTimer == old(entity.moveTimer) - if old(entity.moveTimer) > 0 then entity.charge else 0
  {
    if entity.moveTimer > 0 { entity.moveTimer := entity.moveTimer - entity.charge; }
    if entity.turnTimer > 0 { entity.turnTimer := entity.turnTimer - entity.charge; }
    entity.advances := entity.advances + 1;
  }

  /** wait() of game.cpp, for costs in whole moves and turns as the actions have them. */
  method Wait(entity: Entity, moves: int, turns: int)
    modifies entity`moveTimer, entity`turnTimer, entity`turns
    ensures entity.Time() == old(entity.Time()).Waited(moves, turns)
    ensures entity.moveTimer == old(entity.moveTimer) + 960 * moves && entity.turnTimer == old(entity.turnTimer) + 120 * turns
  {
    entity.moveTimer := entity.moveTimer + MOVE_TIMER * moves;
    entity.turnTimer := entity.turnTimer + TURN_TIMER * turns;
    entity.turns := entity.turns + turns;
  }

  /** The fields of a Vision at one moment. */
  datatype CacheEntry = CacheEntry(offset: Point, dirty: bool, visibility: LightMap) {
    function VisibilityAt(p: Point): int {
      visibility.Get(p.Plus(offset))
    }

    /** The map shows, for every point of the board, what computing the view afresh would show. */
    ghost predicate Shows(radius: nat, v: View) {
      && offset == Point(radius, radius).Minus(v.pos)
      && forall p: Point :: VisibilityAt(p) == v.LightAt(p.Minus(v.pos))
    }

    predicate Sized(radius: nat) {
      visibility.size == Start(radius).size && visibility.init == -1
    }

    /** The entry after setTile has put new flags at p. */
    function Invalidated(p: Point): CacheEntry {
      if VisibilityAt(p) >= 0 then this.(dirty := true) else this
    }
  }

  /** The light map last computed for one entity, and whether it may be out of date. */
  class Vision {
    var offset: Point
    var dirty: bool
    var visibility: LightMap

    constructor (visibility: LightMap)
      ensures dirty && offset == ORIGIN && this.visibility == visibility
    {
      offset, dirty, this.visibility := ORIGIN, true, visibility;
    }

    function Entry(): CacheEntry
      reads this`offset, this`dirty, this`visibility
    {
      CacheEntry(offset, dirty, visibility)
    }

    function VisibilityAt(p: Point): int
      reads this
    {
      Entry().VisibilityAt(p)
    }

    predicate CanSee(p: Point)
      reads this
    {
      VisibilityAt(p) >= 0
    }
  }

  // ----- what the invariants say, on values -----

  /** The position map and the entity list hold the same entities, each under its own position. */
  ghost predicate IndexAgrees(entities: seq<Entity>, entityAtPos: map<Point, Entity>, positions: map<Entity, Point>) {
    && (forall i, j :: 0 <= i < j < |entities| ==> entities[i] != entities[j])
    && positions.Keys == (set e | e in entities)
    && (forall e | e in entities :: positions[e] in entityAtPos && entityAtPos[positions[e]] == e)
    && (forall p | p in entityAtPos :: entityAtPos[p] in entities && positions[entityAtPos[p]] == p)
  }

  /** Every entry that is not dirty shows what computing it afresh would show. */
  ghost predicate CacheAgrees(radius: nat, sight: nat, trie: set<Path>, tiles: TileMap,
                              positions: map<Entity, Point>, cached: map<Entity, CacheEntry>) {
    forall e | e in cached ::
      && e in positions && cached[e].Sized(radius)
      && (!cached[e].dirty ==> cached[e].Shows(radius, View(sight, trie, tiles, positions[e])))
  }

  function InvalidatedAt(cached: map<Entity, CacheEntry>, p: Point): map<Entity, CacheEntry> {
    map e | e in cached :: cached[e].Invalidated(p)
  }

  lemma IndexAfterAdd(entities: seq<Entity>, entityAtPos: map<Point, Entity>, positions: map<Entity, Point>,
                      entity: Entity, at: Point)
    requires IndexAgrees(entities, entityAtPos, positions)
    requires at !in entityAtPos && entity !in entities
    ensures IndexAgrees(entities + [entity], entityAtPos[at := entity], positions[entity := at])
  {}

  lemma IndexAfterMove(entities: seq<Entity>, entityAtPos: map<Point, Entity>, positions: map<Entity, Point>,
                       entity: Entity, to: Point)
    requires IndexAgrees(entities, entityAtPos, positions) && entity in entities
    requires to !in entityAtPos || to == positions[entity]
    ensures positions[entity] in entityAtPos && entityAtPos[positions[entity]] == entity
    ensures IndexAgrees(entities, (entityAtPos - {positions[entity]})[to := entity], positions[entity := to])
  {
    forall e | e in entities && e != entity
      ensures positions[e] != to && positions[e] != positions[entity]
    {
      assert entityAtPos[positions[e]] == e;
    }
  }

  /** A tile that changes at a cell the map marks unseen leaves the map right for the new board. */
  lemma ShowsAfterTile(radius: nat, entry: CacheEntry, v: View, p: Point, tile: Tile)
    requires v.sight >= 1 && IsTrie(radius, v.trie) && entry.Shows(radius, v)
    requires v.tiles.Contains(p) && v.tiles.Get(p).flags != tile.flags ==> entry.VisibilityAt(p) < 0
    ensures entry.Shows(radius, v.(tiles := v.tiles.Set(p, tile)))
  {
    TrieIsLayered(radius, v.trie);
    hide View.LightAt;
    assert entry.VisibilityAt(p) == v.LightAt(p.Minus(v.pos));
    UnseenTileChange(radius, v, p, tile);
  }

  lemma CacheAfterTile(radius: nat, sight: nat, trie: set<Path>, tiles: TileMap, p: Point, tile: Tile,
                       positions: map<Entity, Point>, cached: map<Entity, CacheEntry>)
    requires sight >= 1 && IsTrie(radius, trie)
    requires CacheAgrees(radius, sight, trie, tiles, positions, cached)
    ensures tiles.Contains(p) && tiles.Get(p).flags != tile.flags ==>
              CacheAgrees(radius, sight, trie, tiles.Set(p, tile), positions,
                          InvalidatedAt(cached, p))
    ensures !(tiles.Contains(p) && tiles.Get(p).flags != tile.flags) ==>
              CacheAgrees(radius, sight, trie, tiles.Set(p, tile), positions, cached)
  {
    hide CacheEntry.Shows, IsTrie;
    forall e | e in cached && !cached[e].dirty
      ensures (tiles.Contains(p) && tiles.Get(p).flags != tile.flags && cached[e].VisibilityAt(p) >= 0) ||
              cached[e].Shows(radius, View(sight, trie, tiles.Set(p, tile), positions[e]))
    {
      if !(tiles.Contains(p) && tiles.Get(p).flags != tile.flags && cached[e].VisibilityAt(p) >= 0) {
        ShowsAfterTile(radius, cached[e], View(sight, trie, tiles, positions[e]), p, tile);
      }
    }
  }

  lemma CacheAfterMove(radius: nat, sight: nat, trie: set<Path>, tiles: TileMap,
                       positions: map<Entity, Point>, cached: map<Entity, CacheEntry>, entity: Entity, to: Point)
    requires CacheAgrees(radius, sight, trie, tiles, positions, cached)
    ensures CacheAgrees(radius, sight, trie, tiles, positions[entity := to],
                        if entity !in cached then cached else cached[entity := cached[entity].(dirty := true)])
  {}

  lemma CacheAfterRefresh(radius: nat, sight: nat, trie: set<Path>, tiles: TileMap,
                          positions: map<Entity, Point>, cached: map<Entity, CacheEntry>, entity: Entity, entry: CacheEntry)
    requires CacheAgrees(radius, sight, trie, tiles, positions, cached)
    requires entity in positions && entry.Sized(radius)
    requires entry.dirty || entry.Shows(radius, View(sight, trie, tiles, positions[entity]))
    ensures CacheAgrees(radius, sight, trie, tiles, positions, cached[entity := entry])
  {}

  lemma WalkShowsTheView(radius: nat, v: View, order: seq<Path>)
    requires v.sight >= 1 && IsTrie(radius, v.trie) && [] !in order
    requires IsWalk(v.trie, order, Answers(v.LookAround(radius), Start(radius), order))
    ensures var entry := CacheEntry(Point(radius, radius).Minus(v.pos), false,
                                    Run(v.LookAround(radius), Start(radius), order));
      entry.Sized(radius) && entry.Shows(radius, v)
  {
    hide IsWalk, Run, View.LightAt;
    WalkLightsTheView(radius, v, order);
    var centre := Point(radius, radius);
    assert forall p: Point :: p.Minus(v.pos).Plus(centre) == p.Plus(centre.Minus(v.pos));
  }

  lemma FilledIsStart(radius: nat, entry: CacheEntry)
    requires entry.Sized(radius)
    ensures entry.visibility.Fill(-1) == Start(radius)
  {
    assert entry.visibility.Fill(-1).data == Start(radius).data;
  }

  // ----- the board -----

  class Board {
    const fov: Fov
    ghost const trie: set<Path>
    const sight: nat
    var tiles: TileMap
    var entities: seq<Entity>
    var entityIndex: nat
    var entityAtPos: map<Point, Entity>
    var vision: map<Entity, Vision>

    ghost function Positions(): map<Entity, Point>
      reads this`entities, entities`pos
    {
      map e | e in entities :: e.pos
    }

    ghost function Times(): map<Entity, Clock>
      reads this`entities, entities`moveTimer, entities`turnTimer, entities`turns, entities`advances
    {
      map e | e in entities :: e.Time()
    }

    ghost function Cached(): map<Entity, CacheEntry>
      reads this`vision, vision.Values`offset, vision.Values`dirty, vision.Values`visibility
    {
      map e | e in vision :: vision[e].Entry()
    }

    /** The board as an entity sees it now, with no cache. */
    ghost function ViewOf(e: Entity): View
      reads this`tiles, e`pos
    {
      View(sight, trie, tiles, e.pos)
    }

    ghost predicate Unshared()
      reads this`vision
    {
      forall e, f | e in vision && f in vision && e != f :: vision[e] != vision[f]
    }

    ghost predicate TrieReady()
      reads fov`nodes, fov.nodes`children
    {
      fov.Valid() && fov.Paths() == trie
    }

    ghost predicate Valid()
      reads this, fov`nodes, fov.nodes`children, entities`pos, vision.Values
    {
      && TrieReady() && IsTrie(fov.radius, trie)
      && sight >= 1
      && (entityIndex < |entities| || (entities == [] && entityIndex == 0))
      && IndexAgrees(entities, entityAtPos, Positions())
      && Unshared()
      && CacheAgrees(fov.radius, sight, trie, tiles, Positions(), Cached())
    }

    constructor (size: Point, radius: nat, sight: nat, wall: Tile)
      requires size.x >= 0 && size.y >= 0 && sight >= 1
      ensures Valid() && fresh(fov) && fresh(fov.nodes)
      ensures fov.radius == radius && this.sight == sight && tiles == NewMatrix(size, wall)
      ensures entities == [] && entityAtPos == map[] && vision == map[]
    {
      var f := new Fov(radius);
      fov := f;
      trie := f.Paths();
      this.sight := sight;
      tiles := NewMatrix(size, wall);
      entities, entityIndex, entityAtPos, vision := [], 0, map[], map[];
    }

    // ----- reads -----

    function GetTile(p: Point): Tile
      reads this`tiles
    {
      tiles.Get(p)
    }

    function GetStatus(p: Point): Status
      reads this`tiles, this`entityAtPos
    {
      if GetTile(p).flags.blocked then Blocked
      else if p in entityAtPos then Occupied
      else Free
    }

    /** Nothing blocks the cell and nobody stands on it. */
    ghost predicate IsOpen(p: Point)
      reads this`tiles, this`entities, entities`pos
    {
      !tiles.Get(p).flags.blocked && forall e | e in entities :: e.pos != p
    }

    lemma StatusIs(p: Point)
      requires Valid()
      ensures GetStatus(p) == Free <==> IsOpen(p)
      ensures GetStatus(p) == Blocked <==> tiles.Get(p).flags.blocked
      ensures p in entityAtPos <==> exists e :: e in entities && e.pos == p
    {
      ListedUnderTheirCells();
      forall e | e in entities
        ensures e.pos in entityAtPos && entityAtPos[e.pos] == e
      {
        PositionOf(e);
      }
      hide Valid;
    }

    function GetActiveEntity(): Entity
      requires entityIndex < |entities|
      reads this`entities, this`entityIndex
    {
      entities[entityIndex]
    }

    // ----- writes -----

    /** Gives no cached map up, so there must be none. */
    method ClearAllTiles(tile: Tile)
      requires Valid() && vision == map[]
      modifies this`tiles
      ensures Valid()
      ensures tiles == old(tiles).Fill(tile)
    {
      hide TrieReady, IsTrie, IndexAgrees;
      tiles := tiles.Fill(tile);
    }

    method SetTile(p: Point, tile: Tile)
      requires Valid()
      modifies this`tiles, vision.Values`dirty
      ensures Valid()
      ensures tiles == old(tiles).Set(p, tile)
      ensures Cached() ==
              if tiles.Contains(p) && old(tiles).Get(p).flags != tile.flags
              then InvalidatedAt(old(Cached()), p)
              else old(Cached())
    {
      hide TrieReady, Unshared, IsTrie, IndexAgrees, CacheAgrees, Positions, Cached;
      CacheAfterTile(fov.radius, sight, trie, tiles, p, tile, Positions(), Cached());
      if !tiles.Contains(p) {
        return;
      }
      CachedAreListed();
      var prev := tiles.Get(p);
      tiles := tiles.Set(p, tile);
      var dirty := prev.flags != tile.flags;
      if dirty {
        DirtyAll(p);
      }
    }

    lemma CachedAreListed()
      requires Valid()
      ensures forall e | e in vision :: e in entities
      ensures forall i, j :: 0 <= i < j < |entities| ==> entities[i] != entities[j]
    {
      forall e | e in vision
        ensures e in entities
      {
        assert e in Cached();
      }
    }

    /** The loop of setTile. */
    method DirtyAll(p: Point)
      requires forall e | e in vision :: e in entities
      requires forall i, j :: 0 <= i < j < |entities| ==> entities[i] != entities[j]
      requires Unshared()
      modifies vision.Values`dirty
      ensures Cached() == InvalidatedAt(old(Cached()), p)
    {
      hide CacheEntry.Invalidated, Cached, Unshared;
      ghost var before := map e | e in vision :: vision[e].Entry();
      CachedIs(before);
      for i := 0 to |entities|
        invariant forall k | 0 <= k < i && entities[k] in vision ::
                    vision[entities[k]].Entry() == before[entities[k]].Invalidated(p)
        invariant forall k | i <= k < |entities| && entities[k] in vision ::
                    vision[entities[k]].Entry() == before[entities[k]]
      {
        assert forall k | 0 <= k < |entities| && k != i :: entities[k] != entities[i];
        DirtyVision(entities[i], Some(p));
      }
      CachedIs(InvalidatedAt(before, p));
    }

    /** With no target the map is always given up; with one, only if the map shows the target as seen. */
    method DirtyVision(entity: Entity, target: Option<Point>)
      requires Unshared()
      modifies (if entity in vision then {vision[entity]} else {})`dirty
      ensures Cached() ==
              if entity !in vision then old(Cached())
              else old(Cached())[entity :=
                if target.Some? then old(vision[entity].Entry()).Invalidated(target.value)
                else old(vision[entity].Entry()).(dirty := true)]
      ensures entity in vision ==>
                vision[entity].Entry() ==
                  if target.Some? then old(vision[entity].Entry()).Invalidated(target.value)
                  else old(vision[entity].Entry()).(dirty := true)
      ensures forall e | e in vision && e != entity :: vision[e].Entry() == old(vision[e].Entry())
    {
      hide CacheEntry.VisibilityAt, CacheEntry.Shows, CacheEntry.Sized;
      if entity !in vision || vision[entity].dirty {
        return;
      }
      if target.Some? && !vision[entity].CanSee(target.value) {
        return;
      }
      vision[entity].dirty := true;
    }

    method AddEntity(entity: Entity)
      requires Valid() && entity.pos !in entityAtPos
      modifies this`entities, this`entityAtPos
      ensures Valid()
      ensures entities == old(entities) + [entity]
      ensures entityAtPos == old(entityAtPos)[entity.pos := entity]
    {
      hide TrieReady, Unshared, IsTrie, CacheEntry.Shows;
      ghost var positions := Positions();
      IndexAfterAdd(entities, entityAtPos, positions, entity, entity.pos);
      entities := entities + [entity];
      entityAtPos := entityAtPos[entity.pos := entity];
      assert Positions() == positions[entity := entity.pos];
    }

    method MoveEntity(entity: Entity, to: Point)
      requires Valid() && entity in entities
      requires to !in entityAtPos || to == entity.pos
      modifies this`entityAtPos, entity`pos, (if entity in vision then {vision[entity]} else {})`dirty
      ensures Valid()
      ensures Positions() == old(Positions())[entity := to]
      ensures entityAtPos == (old(entityAtPos) - {old(entity.pos)})[to := entity]
      ensures entity in vision ==> vision[entity].dirty
    {
      hide TrieReady, Unshared, IsTrie, IndexAgrees, CacheAgrees, Positions, Cached;
      MovedInIndex(entity, to);
      CachedEntry(entity);
      Reindex(entity, to);
      DirtyVision(entity, None);
    }

    lemma MovedInIndex(entity: Entity, to: Point)
      requires Valid() && entity in entities
      requires to !in entityAtPos || to == entity.pos
      ensures entity.pos in entityAtPos && entityAtPos[entity.pos] == entity
      ensures IndexAgrees(entities, (entityAtPos - {entity.pos})[to := entity], Positions()[entity := to])
      ensures CacheAgrees(fov.radius, sight, trie, tiles, Positions()[entity := to],
                          if entity !in Cached() then Cached()
                          else Cached()[entity := Cached()[entity].(dirty := true)])
    {
      IndexAfterMove(entities, entityAtPos, Positions(), entity, to);
      CacheAfterMove(fov.radius, sight, trie, tiles, Positions(), Cached(), entity, to);
    }

    lemma ListedUnderTheirCells()
      requires Valid()
      ensures forall i | 0 <= i < |entities| :: var e := entities[i]; e.pos in entityAtPos && entityAtPos[e.pos] == e
      ensures forall p | p in entityAtPos :: entityAtPos[p] in entities && entityAtPos[p].pos == p
    {
      forall e | e in entities
        ensures e.pos in entityAtPos && entityAtPos[e.pos] == e
      {
        PositionOf(e);
      }
      forall p | p in entityAtPos
        ensures entityAtPos[p] in entities && entityAtPos[p].pos == p
      {
        PositionOf(entityAtPos[p]);
      }
    }

    lemma SomebodyActive()
      requires Valid() && entities != []
      ensures entityIndex < |entities|
      ensures forall i, j :: 0 <= i < j < |entities| ==> entities[i] != entities[j]
    {}

    lemma TimeOf(entity: Entity)
      requires entity in entities
      ensures entity in Times() && Times()[entity] == entity.Time()
    {}

    lemma NobodyActive()
      requires Valid() && entities == []
      ensures entityIndex == 0
    {}

    lemma NothingCached()
      requires vision == map[]
      ensures vision.Values == {}
    {}

    lemma CachedIs(cached: map<Entity, CacheEntry>)
      requires cached.Keys == vision.Keys
      requires forall e | e in vision :: vision[e].Entry() == cached[e]
      ensures Cached() == cached
    {}

    lemma CachedEntry(entity: Entity)
      ensures entity in vision <==> entity in Cached()
      ensures entity in vision ==> Cached()[entity] == vision[entity].Entry()
    {}

    /** The source and target lookups of moveEntity; its two assertions are what this requires. */
    method Reindex(entity: Entity, to: Point)
      requires entity in entities
      requires entity.pos in entityAtPos && entityAtPos[entity.pos] == entity
      requires to !in entityAtPos || to == entity.pos
      modifies this`entityAtPos, entity`pos
      ensures entity.pos == to && Positions() == old(Positions())[entity := to]
      ensures entityAtPos == (old(entityAtPos) - {old(entity.pos)})[to := entity]
    {
      var source := entityAtPos[entity.pos];
      entityAtPos := entityAtPos - {entity.pos};
      assert to !in entityAtPos;
      entityAtPos := entityAtPos[to := source];
      source.pos := to;
    }

    method AdvanceEntity()
      requires Valid() && entities != []
      modifies this`entityIndex
      modifies GetActiveEntity()`moveTimer, GetActiveEntity()`turnTimer, GetActiveEntity()`advances
      ensures Valid()
      ensures entityIndex == if old(entityIndex) + 1 < |entities| then old(entityIndex) + 1 else 0
      ensures Times() == old(Times()[GetActiveEntity() := GetActiveEntity().Time().Advanced()])
    {
      hide TrieReady, Unshared, IsTrie, IndexAgrees, CacheAgrees, Positions, Cached;
      Charge(GetActiveEntity());
      entityIndex := entityIndex + 1;
      if entityIndex >= |entities| { entityIndex := 0; }
    }

    // ----- cached field of vision -----

    /** Answers from the cache when it is clean, and otherwise walks the trie; either way the answer is fresh. */
    method GetVision(entity: Entity) returns (result: Vision)
      requires Valid() && entity in entities
      modifies this`vision, fov`cache, vision.Values
      ensures Valid()
      ensures vision == old(vision)[entity := result] && !result.dirty
      ensures if entity in old(vision) then result == old(vision)[entity] else fresh(result)
      ensures fresh(vision.Values - old(vision.Values))
      ensures result.Entry().Shows(fov.radius, ViewOf(entity))
      ensures Cached() == old(Cached())[entity := result.Entry()]
    {
      hide TrieReady, Unshared, IsTrie, IndexAgrees, CacheAgrees, CacheEntry.Shows, CacheEntry.Sized, Cached, Positions;
      ghost var cached := Cached();
      PositionOf(entity);
      CachedIsSound(entity);
      result := Lookup(entity);
      if result.dirty {
        Recompute(entity, result);
      }
      assert Cached() == cached[entity := result.Entry()];
      CacheAfterRefresh(fov.radius, sight, trie, tiles, Positions(), cached, entity, result.Entry());
    }

    method Lookup(entity: Entity) returns (result: Vision)
      modifies this`vision
      ensures vision == old(vision)[entity := result]
      ensures if entity in old(vision) then result == old(vision)[entity] else fresh(result) && result.dirty
      ensures fresh(vision.Values - old(vision.Values))
      ensures old(Unshared()) ==> Unshared()
      ensures Cached() == old(Cached())[entity := result.Entry()]
      ensures entity !in old(vision) ==> result.Entry().Sized(fov.radius)
    {
      if entity !in vision {
        result := new Vision(Start(fov.radius));
        vision := vision[entity := result];
      } else {
        result := vision[entity];
      }
    }

    method Recompute(entity: Entity, result: Vision)
      requires TrieReady() && IsTrie(fov.radius, trie) && sight >= 1
      requires result.Entry().Sized(fov.radius)
      requires entity in vision && vision[entity] == result
      requires Unshared()
      modifies result`offset, result`dirty, result`visibility, fov`cache
      ensures !result.dirty && result.Entry().Sized(fov.radius)
      ensures result.Entry().Shows(fov.radius, ViewOf(entity))
      ensures Cached() == old(Cached())[entity := result.Entry()]
    {
      hide IsWalk, Run, Answers, Look, Looker, Fov.Valid, IsTrie, CacheEntry.Shows, CacheEntry.Sized;
      var pos := entity.pos;
      var offset := Point(fov.radius, fov.radius).Minus(pos);
      var seen: LightMap := result.visibility.Fill(-1);
      FilledIsStart(fov.radius, result.Entry());
      ghost var v := ViewOf(entity);
      result.visibility := fov.FieldOfVision<LightMap>(seen, Looker(tiles, pos, offset, sight));
      WalkShowsTheView(fov.radius, v, fov.PathsOf(fov.cache));
      result.offset := offset;
      result.dirty := false;
    }

    lemma CachedIsSound(entity: Entity)
      requires Valid()
      ensures entity in vision ==>
                && entity in entities
                && vision[entity].Entry().Sized(fov.radius)
                && (vision[entity].dirty || vision[entity].Entry().Shows(fov.radius, ViewOf(entity)))
    {
      if entity in vision {
        assert entity in Cached();
      }
    }

    lemma PositionOf(entity: Entity)
      requires entity in entities
      ensures entity in Positions() && Positions()[entity] == entity.pos
    {}

    method VisibilityAt(entity: Entity, p: Point) returns (light: int)
      requires Valid() && entity in entities
      modifies this`vision, fov`cache, vision.Values
      ensures Valid() && fresh(vision.Values - old(vision.Values))
      ensures light == ViewOf(entity).LightAt(p.Minus(entity.pos))
    {
      var v := GetVision(entity);
      light := v.VisibilityAt(p);
    }

    method CanSee(entity: Entity, p: Point) returns (seen: bool)
      requires Valid() && entity in entities
      modifies this`vision, fov`cache, vision.Values
      ensures Valid() && fresh(vision.Values - old(vision.Values))
      ensures seen <==> ViewOf(entity).Sees(p.Minus(entity.pos))
    {
      var v := GetVision(entity);
      seen := v.CanSee(p);
    }
  }

  // ----- runs -----

  /** What may be asked of a board: its writes, a question, and the passing of time. */
  datatype Operation =
    | Add(isPlayer: bool, pos: Point, glyph: Glyph, charge: int)
    | Move(i: nat, to: Point)
    | Paint(p: Point, tile: Tile)
    | Ask(i: nat, at: Point)
    | Advance

  /** One operation, if its assertions allow it. */
  method Perform(board: Board, op: Operation)
    requires board.Valid()
    modifies board`tiles, board`entities, board`entityIndex, board`entityAtPos, board`vision, board.fov`cache
    modifies board.entities, board.vision.Values
    ensures board.Valid()
    ensures fresh(board.vision.Values - old(board.vision.Values))
    ensures fresh((set e | e in board.entities) - old(set e | e in board.entities))
  {
    hide Board.Valid;
    match op
    case Add(isPlayer, pos, glyph, charge) =>
      if pos !in board.entityAtPos {
        var entity := new Entity(isPlayer, pos, glyph, charge);
        board.AddEntity(entity);
      }
    case Move(i, to) =>
      if i < |board.entities| && (to !in board.entityAtPos || to == board.entities[i].pos) {
        board.MoveEntity(board.entities[i], to);
      }
    case Paint(p, tile) => board.SetTile(p, tile);
    case Ask(i, at) =>
      if i < |board.entities| {
        var _ := board.CanSee(board.entities[i], at);
      }
    case Advance =>
      if board.entities != [] {
        board.SomebodyActive();
        board.AdvanceEntity();
      }
  }

  /**
   * Whatever has been done to a board since it was made, every map that is not dirty shows what its owner
   * would see if it were computed afresh, and list and position map agree.
   */
  method PerformAll(size: Point, radius: nat, sight: nat, wall: Tile, script: seq<Operation>) returns (board: Board)
    requires size.x >= 0 && size.y >= 0 && sight >= 1
    ensures fresh(board) && board.Valid()
    ensures forall e | e in board.vision ::
              e in board.entities && (board.vision[e].dirty || board.vision[e].Entry().Shows(radius, board.ViewOf(e)))
    ensures forall i | 0 <= i < |board.entities| ::
              var e := board.entities[i]; e.pos in board.entityAtPos && board.entityAtPos[e.pos] == e
    ensures forall p | p in board.entityAtPos :: board.entityAtPos[p] in board.entities && board.entityAtPos[p].pos == p
  {
    hide Board.Valid;
    board := new Board(size, radius, sight, wall);
    for k := 0 to |script|
      invariant fresh(board) && fresh(board.fov) && board.fov.radius == radius && board.Valid()
      invariant fresh(board.vision.Values) && fresh(set e | e in board.entities)
    {
      Perform(board, script[k]);
    }
    forall e | e in board.vision
      ensures e in board.entities && (board.vision[e].dirty || board.vision[e].Entry().Shows(radius, board.ViewOf(e)))
    {
      board.CachedIsSound(e);
    }
    board.ListedUnderTheirCells();
  }
}

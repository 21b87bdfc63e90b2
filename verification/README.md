# What the game sees, when it moves, and what it shows

This project models a small turn-based game that is drawn in a terminal, and three cores of the
Abseil library it is built on, and proves what they are relied on for.

* **Sight.** `LOS` walks a line of cells with an integer error accumulator (`LineOfSight`). `FOV` threads the
  lines to every perimeter cell of a square into a trie, and `fieldOfVision` visits that trie breadth first with a
  stateful callback (`FovTrie`). `Board::getVision` uses the visit to spread a budget of light from the viewer
  (`Lighting`, `Sight`), and keeps the map per entity until a move or a change of terrain may have made it wrong
  (`Board`). Each layer is proved against the one below: the line is a digital segment, the trie holds exactly the
  admitted prefixes of those lines, the map that the visit leaves is a maximum over paths that does not depend on the
  order in which children are visited, and after any run of operations on a board (`PerformAll`) the cached map is the
  one that computing it afresh would give. The symmetries of a line carry up to the trie and to the light (`Mirror`).
  What is seen is also described without that recursion: by paths with no wall in them and the toll of the grass on
  the way (`Obstacles`).
* **Time.** Entities sit in a ring and pay for their turns with timers (`Board`, `Turns`). The account of every clock
  balances exactly, everyone is served alike, and the update loop ends, having done at most one action of the player.
* **Terrain.** The cellular automaton that builds walls and grass (`Terrain`) leaves the border blocked, which is why
  no entity ever leaves the board. Some draw leaves the centre free if and only if the shorter side of the board has at
  least six cells, or five and the longer six, or four and the longer nine (`SomeDrawLeavesCentreFree`).
* **Terminal.** The key decoder undoes what a terminal sends (`Keys`). The frame differ writes only spans of
  cells that changed, and the screen then shows every cell as the player sees it, with no cache involved, if and only if
  it is as wide as the frame and higher, or has nothing to show where the status line covers its last row (`Screen`).
  `Play` builds a game and its terminal and ticks any number of times; all of this holds after every tick.
* **Abseil.** `call_once` under every interleaving of any number of threads (`CallOnce`), the algebra of CRC32C
  checksums, their definition as remainders of polynomials (`CrcRemainder`), and the fast forms below them: the tables, interleaved strides, zero extension by digits, and a product two
  bits at a time (`Crc32c`; the polynomial is that of section 12.1 of RFC 3720), and the flag parser's loop over a stack of argument lists against a recursive reading of the same arguments (`Flags`),
  which is in turn shown to read off the items of any command line, with its files and environment lists (`CommandLine`).

`Geometry` and `Optional` hold the points, matrices and optional values that the others share. The radius of the trie,
the vision radius and the size of the board are parameters; the game sets them to 15, 3 and 31.

Objects whose fields the program updates are classes whose methods state the whole new state; a `Matrix` and an
argument list are held and copied by value in the program, so they are values here. Ghost fields only keep records: the
path of a trie node, the turns that an entity has taken and the advances it has seen, and how often the ring has come
round. `Terminal.display` stands for the screen itself: it changes only by the writes that are sent to it.

Where the code and its own words differ, the model follows the code:

* The comment at geo.cpp:4 calls the walk symmetric. It commutes with every reflection, transposition and
  translation, but walking back retraces it only if no step is an exact half (`LineReversesIffTieFree`); from
  (0,0) to (2,1) it does not (`LineIsNotAlwaysReversible`).
* The comment at game.cpp:267-269 says that in tall grass only cells within the vision radius are seen. That holds
  (`TallGrassBound`). Whether all of those cells are seen depends on how lines come to them (`TallGrassIsSeen` has the
  exact condition, in terms of the cell and the two radii). With the game's radii of 15 and 3 they all are; with a trie
  of radius 15 that is so up to a vision radius of 4, and from 5 to 13 a cell straight ahead is the input for which it
  is not (`TallGrassIsExactIff`, `TallGrassHidesNearCells`).
* Two escapes read in one go come back as the raw value 27, which is no key (`TwoEscapesAreMisread`).
* main.cpp:83-86 erases the last row of the screen at every tick without a word of it in the last frame, so on a screen
  exactly as high as the frame the last row of the board is lost and not drawn again (`ShowsFrameIff`).
* When the flag parser cannot deduce a value it reports failure, and then still tries to set the flag from the empty
  text (abseil-cpp/absl/flags/parse.cc:850-866). A text flag as the last argument fails and is set to nothing
  (`MissingValueIsSetEmpty`), and `FailureStillSets` says exactly when that happens.
* The comments at abseil-cpp/absl/flags/parse.cc:378 and 451-452 say that lists from the environment cannot be
  recursive. The guard compares whole names, and a name may hold an equals sign where the lookup finds it: getenv of
  glibc finds `FLAGS_fromenv=fromenv` in a variable `FLAGS_fromenv` whose value is `fromenv=fromenv`. The argument
  `--fromenv=fromenv=fromenv` then asks for itself without end (`EnvironmentCanNameItself`). A setting from the
  environment asks for the environment again if and only if its name holds a generator flag's name before an equals
  sign (`EnvironmentIsFlatIff`), which no name without one does (`PlainNamesAreFlat`).

## Model

| member | source | states |
|---|---|---|
| Geometry.Matrix.GetAfterSet | geo.h:55-65 | a write is seen at its own cell and nowhere else, and is dropped outside the bounds, although cells share one flat vector |
| Geometry.Matrix.IndexInjective | geo.h:56-60 | distinct cells of a matrix never share a slot |
| Geometry.Matrix.Fill | geo.h:67-69 | every cell inside holds the new value; outside, the default is unchanged |
| LineOfSight.LOS | geo.cpp:6-46 | the accumulator loop returns, for all endpoints, the line whose i-th cell is rounded to nearest |
| LineOfSight.NearestIffMinorSteps | geo.cpp:20-41 | the row taken at a step is the one nearest to the ideal line, an exact half going to the lower row |
| LineOfSight.LineIsDigitalSegment | geo.cpp:6-46 | max(dx,dy)+1 cells from a to b, each a full step on the major axis and at most one on the minor, all within half a cell of the ideal line |
| LineOfSight.LineCommutesWithSymmetry | geo.cpp:6-46 | walking the image of two endpoints under any of the eight reflections and transpositions, and any translation, gives the image of the walk |
| LineOfSight.LineReversesIffTieFree | geo.cpp:4-46 | the walk back is the reverse of the walk if and only if no step is a tie, a condition that halving the two lengths decides |
| LineOfSight.TieFreeIffNoTie | geo.cpp:20-41 | that decision procedure is right: halve while both are even, and the major length must then be odd |
| LineOfSight.LineIsNotAlwaysReversible | geo.cpp:4-46 | the endpoints (0,0) and (2,1), whose walks differ in the middle |
| FovTrie.EndpointsArePerimeter | geo.h:90-97 | the eight points of each round are, over all rounds, exactly the perimeter of the square |
| FovTrie.Fov.constructor | geo.h:88-98 | the paths of the finished trie are exactly the prefixes of the perimeter lines cut after their first point with length > radius - 0.5 |
| FovTrie.AllInsertedIsTrie | geo.h:88-98 | the lines inserted by all rounds leave that set of prefixes, and the root is one of them |
| FovTrie.Fov.InsertLineTo | geo.h:95 | inserting one line adds exactly its admitted prefixes and keeps every path that was there |
| FovTrie.Fov.TrieUpdate | geo.h:113-126 | the same from any node already reached on the line, with siblings kept distinct and parent links right |
| FovTrie.Fov.FindOrAddChild | geo.h:119-123 | the child for a point is found or added, and no path other than its own appears |
| FovTrie.Fov.FieldOfVision | geo.h:101-110 | the callback is called in breadth-first order, each node once after its parent, on exactly the nodes all of whose ancestors it let pass, its state threaded through |
| FovTrie.Fov.QueueStep | geo.h:104-109 | one round of the queue keeps it free of repeats, sorted by depth, and complete for what has been passed |
| Lighting.TrieIsLayered | geo.h:88-126 | a node's depth is the walking length of its point, and every prefix of a path is a path |
| Lighting.ShorterPathsFirst | game.cpp:264-287 | when a node is visited, every visited node of smaller depth has been visited before |
| Lighting.CellAboveIsFinal | game.cpp:277-278 | the parent cell read by the callback already holds the greatest light it will ever get |
| Lighting.WalkHolds | game.cpp:264-287 | after each prefix of any such visit, the map holds the greatest of the lights brought so far, and the callback has stopped exactly the dark paths |
| Lighting.WalkLightsTheView | game.cpp:249-292 | whatever the order of children, the finished map is the recursive maximum over visited paths at every cell |
| Sight.UnseenCellsDoNotMatter | game.cpp:264-298 | two boards whose flags agree on every cell the first view sees give the same light everywhere |
| Sight.UnseenTileChange | game.cpp:188-196 | a new tile at an unseen cell, or with the same flags, changes nothing of what is seen |
| Sight.TallGrassBound | game.cpp:266-279 | if every unblocked cell as far out as a seen cell is tall grass, that cell has lenNethack at most the vision radius, for every radius of at least 1 |
| Sight.GrassLightIsExact | game.cpp:266-279 | with open tall grass as far out as a path is long, it is visited exactly while the cell before its end keeps some of the budget, and its light is what the distance leaves |
| Sight.LinesThatEnter | geo.h:88-126 | some path of the trie comes to a cell by a diagonal, or a straight, last step if and only if the line to one end, found by a division from the cell's sides and the radius, does, and the cell before lies within radius - 0.5 |
| Sight.TallGrassIsSeen | game.cpp:266-279 | through open tall grass, which need reach no further than the cell, it is seen if and only if a line comes to it in one of the two ways and 95 times the longer side plus 46 times the shorter is below 100 (R + 1) less 25 for a diagonal last step, less 71 for a straight one |
| Sight.TallGrassRadius | game.cpp:266-279 | a cell that a line can enter diagonally is seen if and only if its lenNethack is at most the vision radius |
| Sight.TallGrassOnAnAxis | game.cpp:266-279 | straight ahead the reach is shorter, exactly |
| Sight.TallGrassHidesNearCells | game.cpp:267-269 | for each vision radius R from 5 to 13 the input: R + 1 cells straight ahead measure R and are hidden, with a trie of radius 15 |
| Sight.TallGrassIsExactIff | game.cpp:266-279 | with a trie of radius 15 and grass as far as it reaches, the seen cells are exactly those within the vision radius if and only if that is at most 4, as the 3 of the game is |
| Turns.InteriorLiesAround | game.cpp:89-154 | walled boards with such open ground around a viewer: any whose interior is all of it |
| Sight.SomeLinePasses | geo.h:90-97 | the rows that the perimeter lines reach at a given distance leave no gap |
| Sight.TrieCovers | geo.h:88-126 | every cell within radius - 0.5 of the centre ends some path of the trie |
| Sight.OpenFieldCoverage | geo.h:88-126 | each of those cells is seen at full light if nothing is in the way as far out as it lies |
| Sight.NothingSeenBeyondTheMap | game.cpp:254-283 | no cell outside the square that the light map stores is ever seen |
| Mirror.TrieIsSymmetric | geo.h:88-126 | a path belongs to the trie if and only if its image under any of the eight symmetries does |
| Mirror.LightMirrors | game.cpp:249-292 | on a board that is the image of another under one of the eight symmetries, every cell has the light of the cell that it is the image of |
| Obstacles.SeenAlongClearPath | game.cpp:264-287 | whatever is seen is seen along a path of the trie with no blocked cell strictly between its ends |
| Obstacles.RingHidesTheRest | game.cpp:273 | a viewer ringed by blocked cells sees nothing past the ring |
| Obstacles.SeenIffClear | game.cpp:264-287 | where no tall grass is nearer than a cell, the cell, wall or not, is seen if and only if such a path leads to it |
| Obstacles.LinesAreCut | geo.h:113-116 | every cell of a path before its end lies within radius - 0.5, in numbers, and with radius 0 no path leaves the viewer |
| Obstacles.SeenIsNextToWithin | geo.h:113-116 | a cell that is seen is the viewer's own or a king's move from a cell within radius - 0.5 |
| Obstacles.OpenGroundIsSeen | geo.h:88-126 | on open ground a cell is seen if and only if one of two conditions in its sides and the radius holds |
| Obstacles.SeenAlong | game.cpp:270-283 | on any ground, a path with no wall between its ends whose grass costs less than 100 R - 66 before its last cell is seen to its end, and at least what is left arrives there; grass costs 95 a cell and 141 where it is entered diagonally |
| Obstacles.LightAtMost | game.cpp:270-283 | and no more arrives at an open cell than some way of king's moves outward through open cells leaves |
| Obstacles.LightIsBounded | game.cpp:270-283 | so the light of a seen open cell lies between what every such path and what some such way leaves |
| Board.Charge | game.cpp:31-35 | a running timer loses the entity's charge, a finished one is left alone |
| Board.Wait | game.cpp:41-44 | a cost in moves and turns adds 960 and 120 to the timers for each, and is entered in the account |
| Board.ShowsAfterTile | game.cpp:188-196 | a map that is right stays right when a cell it shows as unseen gets another tile |
| Board.CacheAfterTile | game.cpp:188-196 | dirtying exactly the maps that show the changed cell keeps every clean map right |
| Board.WalkShowsTheView | game.cpp:258-290 | a visit from a filled map leaves an entry that shows the view of its owner |
| Board.Board.constructor | game.cpp:162 | a board of walls with nobody on it, whose trie is exact |
| Board.Board.SetTile | game.cpp:188-196 | the tile is written, exactly the maps that show it are dirtied if its flags differ, and every clean map stays right |
| Board.Board.DirtyAll | game.cpp:195 | the loop over the entities gives up exactly the maps that show the point as seen |
| Board.Board.DirtyVision | game.cpp:294-299 | a map is given up always, or if it shows the target as seen, and no other map is touched |
| Board.Board.AddEntity | game.cpp:198-203 | the entity joins list and position map, which go on agreeing; the assertion holds |
| Board.Board.MoveEntity | game.cpp:205-217 | exactly one position changes, list and map agree, the mover's map is given up, both assertions hold |
| Board.Board.ClearAllTiles | game.cpp:186 | every cell of the map gets the tile, allowed only while nothing is cached |
| Board.Board.AdvanceEntity | game.cpp:227-231 | the active entity alone is charged, and the next in the ring becomes active |
| Board.Board.StatusIs | game.cpp:166-170 | a cell is free if and only if nothing blocks it and nobody stands on it, and its status is otherwise what comes first |
| Board.Board.GetVision | game.cpp:249-292 | from the cache or by a new visit, the map returned is the one that computing it afresh gives |
| Board.Board.VisibilityAt | game.cpp:241-247 | in every valid state the cached light is the uncached light, and the state stays valid |
| Board.Board.CanSee | game.cpp:233-239 | in every valid state the cached answer is the uncached one, and the state stays valid |
| Board.Board.CachedIsSound | game.cpp:249-299 | in every valid state an entry that is not dirty shows its owner's view on the present tiles from its present position |
| Board.PerformAll | game.cpp:162-299 | after any run of entities added and moved, tiles set, looks and advances, from a new board on, every map that is not dirty shows its owner's view afresh, and list and position map agree |
| Terrain.Seed | game.cpp:95-109 | border cells alive, the others by their roll, none outside |
| Terrain.CountNeighbours | game.cpp:116-127 | the two counters are the numbers of live neighbours at distance 1, and at distance 2 without the corners |
| Terrain.Automata | game.cpp:94-138 | three simultaneous generations of the rule |
| Terrain.GenerationRule | game.cpp:105-134 | a cell inside starts alive on a roll below 45, and in the next generation lives if and only if five of its eight neighbours do or, in the first two, at most one cell within two does, corners aside |
| Terrain.NeighboursAreCounted | game.cpp:116-127 | the counters are the sizes of those sets of live cells |
| Terrain.BorderLives | game.cpp:96-103 | the border is alive after any number of generations, whatever the rolls |
| Terrain.InitBoard | game.cpp:89-154 | the tile of every cell from the two automata, walls before grass |
| Terrain.GroundOf | game.cpp:140-153 | a cell is blocked if and only if the first automaton left it alive, and hides if and only if only the second did |
| Terrain.RoomIsStill | game.cpp:111-135 | in and around a room of sixteen cells without its corners the rule changes nothing, in any generation |
| Terrain.ThreeWideFills | game.cpp:111-135 | on a board three cells wide nothing is free after one generation |
| Terrain.FourWideErodes | game.cpp:111-135 | on a board four cells wide every generation takes one row at either end, whatever the rolls |
| Terrain.FourWideLasts | game.cpp:111-135 | and no more than that, if nothing was rolled |
| Terrain.BoxFills | game.cpp:111-135 | on a board of five by five the middle is alive after three generations, whatever the rolls |
| Terrain.FiveWideCentre | game.cpp:111-135 | on a board five wide and at least six high it need not be |
| Turns.SomeDrawLeavesCentreFree | game.cpp:356-363 | some draw leaves the centre free, so that the search for one can end, if and only if the shorter side has at least six cells, or five and the longer six, or four and the longer nine |
| Turns.Act | game.cpp:73-85 | a zero step and a step to a cell with no wall and nobody on it succeed, and the entity stands there; any other step fails and nobody moves; idling succeeds and waiting for input fails |
| Turns.KeysNameDirections | game.cpp:305-320 | the nine keys name the nine cells within a king's move, each its own, and no other key names one |
| Turns.StepsAreTheEight | game.cpp:22-25 | the others choose among exactly the eight steps |
| Turns.State.PlanAndAct | game.cpp:62-85 | someone else tries a step to one of the eight cells around and stays if that is not free; the player does what is pending |
| Turns.State.Plan | game.cpp:62-71 | the player's pending input is used up; the others step in one of the eight directions |
| Turns.State.ProcessInput | game.cpp:305-323 | a key that names a direction replaces the pending action, another changes nothing |
| Turns.State.ReadInput | game.cpp:329-334 | keys are consumed up to the first that names a direction, and that direction is pending |
| Turns.State.Advance | game.cpp:338-341 | one advance keeps every account balanced and the ring fair |
| Turns.State.Step | game.cpp:336-346 | what one round of the loop does to the player's place, timer, turns and input, and when it breaks; nobody moves but the active entity, and it only when it is ready |
| Turns.State.UpdateState | game.cpp:325-347 | the loop ends for any entities and moves, with the player active, ready and without input; at most one pending action was done, and a ready player's exactly as the board allowed |
| Turns.State.Update | game.cpp:325-352 | a ready player with no input takes the first key that names a direction: if the cell there is free it stands there at the end with one more turn, else nothing of it has changed; the keys after that one are left |
| Turns.SchedulerIsFair | game.cpp:31-44 | in every state turn_timer = 120 A - c N, -c < turn_timer <= 120, c (N-1) < 120 A <= c N + 120, N differs by at most 1 between entities, and turns are in proportion to charge |
| Turns.EntitiesStayApartInside | game.cpp:73-85 | no two entities share a cell and none leaves the interior of the board |
| Turns.InitialBoardIsWalled | game.cpp:94-153 | a generated board has a blocked border |
| Turns.DrawBoard | game.cpp:356-363 | of the draws given, the board kept is the one of the first that leaves the centre free, empty and walled |
| Turns.Populate | game.cpp:365-379 | the player first, in the centre, with a charge of 12, then at most five others with 40, each on free ground, all accounts balanced |
| Turns.FindFree | game.cpp:371-377 | a cell that is found is on the map and free |
| Turns.State.constructor | game.cpp:356-380 | the first state satisfies everything that the later ones keep, on the first good draw, with fresh entities and nothing cached |
| Keys.GetKeyInputs | main.cpp:129-173 | on any bytes the loop ends, reads none past the count, and appends what they decode to |
| Keys.DecodeUndoesEncode | main.cpp:129-173 | printable keys, Tab, Enter, arrows, Shift-Tab, Shift-arrows and a last Esc come back from their bytes |
| Keys.RoundTripIffEscLast | main.cpp:129-173 | keys come back if and only if Esc is pressed last, if at all |
| Keys.EscEndsTheInput | main.cpp:135-146 | on any bytes only the last input can be Esc |
| Keys.TwoEscapesAreMisread | main.cpp:147-150 | two escapes come back as a value that is no key |
| Keys.KeyCodes | main.cpp:135-162 | the bytes of the single keys and the codes they come back as, in numbers, before any further bytes |
| Keys.KeysThenMore | main.cpp:129-173 | keys are decoded one by one before whatever follows them |
| Keys.StrayEscapeEndsAll | main.cpp:147-153 | an escape before a byte that is neither an escape nor a bracket, or before a bracket at the end, takes all that is left with it |
| Keys.OtherBytes | main.cpp:136-145 | a byte that is no key is skipped, but the last one is taken for Esc |
| Keys.ModifiedArrows | main.cpp:163-171 | a sequence with a semicolon is a shifted arrow if modifier 2 and an arrow follow it, and otherwise no key; what comes after is read on |
| Keys.BrokenOff | main.cpp:163-168 | a sequence that breaks off gives no key |
| Screen.PrintingKeepsSync | main.cpp:64-75 | printing a wide glyph in an even column changes that cell of the screen and breaks no other |
| Screen.Terminal.ChangedSpan | main.cpp:41-51 | outside the span nothing in the row has changed, and it begins in an even column |
| Screen.Terminal.DrawRow | main.cpp:40-81 | the row is brought up to date on the screen and in the last frame, and nothing else changes |
| Screen.Terminal.DrawFrame | main.cpp:36-81 | writing only changed spans leaves a screen that takes the frame as a full redraw would, outside the row of the status line, and the last frame equal to the new one |
| Screen.Terminal.DrawGlyph | main.cpp:59-80 | one glyph with the colours that differ from the previous one's puts exactly its cell right |
| Screen.IO.Render | game.cpp:386-406 | every even column shows what the player sees afresh, entities over ground; odd columns are untouched |
| Screen.IO.DrawGround | game.cpp:394-400 | the seen tiles, and blanks for the others |
| Screen.IO.DrawEntities | game.cpp:402-405 | each seen entity under its own position |
| Screen.IO.Tick | game.cpp:412-415 | everyone acts as `UpdateState` promises, and the frame shows what the player then sees |
| Screen.Terminal.DrawStatus | main.cpp:83-86 | the last row of the screen holds the status text and blanks, and no other cell changes |
| Screen.TooSmallHidesACorner | main.cpp:38-39 | on a screen that is narrower or lower than the frame a corner of it is not shown, whatever is drawn |
| Screen.ShowsFrameIff | main.cpp:36-87 | a screen in step shows the whole frame if and only if it is wide enough and higher, or just as high with nothing to show under the status line |
| Screen.FrameIsCentred | main.cpp:38-39 | the margins on opposite sides of the frame differ by at most one, on any screen |
| Screen.StatusIsWhole | main.cpp:83-86 | a status text that fits ends one blank cell before the edge, with blanks before it |
| Screen.IO.SeenIs | game.cpp:386-406 | an unseen cell is blank, a seen one shows whoever stands there, and else its ground |
| Screen.Terminal.Tick | main.cpp:32-87 | after a tick the screen shows every cell of the board exactly as an uncached look would, if and only if the screen is large enough in that sense, and the next tick can follow |
| Screen.Play | main.cpp:248-263 | a game built from any draws of which one is good, ticked any number of times, is ready for the next tick, and after each the screen shows the board as an uncached look would, if and only if it is large enough in that sense |
| CallOnce.FirstFrom | abseil-cpp/absl/base/internal/spinlock_wait.cc:45-47 | the scan finds the first row that leaves the value, or falls off the table |
| CallOnce.StepHolds | abseil-cpp/absl/base/call_once.h:145-186 | every atomic step of every thread, early wakings included, keeps the invariant of control word, places and log |
| CallOnce.FunctionRunsOnce | abseil-cpp/absl/base/call_once.h:53-61 | in every run of any number of threads the function begins at most once and in one thread, a returned call came after its end, and the control word has one of its four values |
| CallOnce.EveryCallFindsItDone | abseil-cpp/absl/base/call_once.h:53-61 | when all calls have returned, the function has begun and ended exactly once |
| CallOnce.SleeperIsOwedAWake | abseil-cpp/absl/base/call_once.h:174-185 | a sleeping thread has a live runner that will find the waiter state, or a wake on its way |
| CallOnce.NoDeadlock | abseil-cpp/absl/base/call_once.h:145-186 | until every call has returned some thread can step, without counting on early wakings |
| CallOnce.StepGetsNearer | abseil-cpp/absl/base/internal/spinlock_wait.cc:39-57 | every step brings all the calls nearer to returning, however threads disturb each other's compare-exchange |
| CallOnce.CallsReturn | abseil-cpp/absl/base/call_once.h:205-214 | n threads take at most 18 n + 12 steps and three per early waking, under any schedule, and stop only when all have returned |
| CallOnce.NobodyIsLeftBehind | abseil-cpp/absl/base/call_once.h:205-214 | where no thread can step any more, all calls have returned |
| Crc32c.TableStep | abseil-cpp/absl/crc/internal/crc.cc:261-264 | one table lookup and one shift are eight steps of the bitwise division |
| Crc32c.FillWordTable | abseil-cpp/absl/crc/internal/crc.cc:101-135 | from the entry for the highest bit alone, the loops fill every table with the bytes' states, n bits on and eight more for each further table |
| Crc32c.LookupIs | abseil-cpp/absl/crc/internal/crc.cc:261-264 | a lookup by the value of a byte finds that byte's entry |
| Crc32c.InitTables | abseil-cpp/absl/crc/internal/crc.cc:181-254 | all the tables that the engine uses are as the methods below need them, the word tables after twelve zero bytes |
| Crc32c.WordAtOnce | abseil-cpp/absl/crc/internal/crc.cc:333-341 | a little-endian word brought in at once is its four bytes brought in one after the other |
| Crc32c.SwathStep | abseil-cpp/absl/crc/internal/crc.cc:287-296 | four lookups take a word past sixteen bytes and add the next one |
| Crc32c.Rotates | abseil-cpp/absl/crc/internal/crc.cc:321-331 | putting the oldest buffer, stepped, behind the others is bringing one more word into the state that the four buffers stand for |
| Crc32c.StepStride | abseil-cpp/absl/crc/internal/crc.cc:298-305 | a stride of all four buffers brings in sixteen bytes |
| Crc32c.CombineOneWord | abseil-cpp/absl/crc/internal/crc.cc:333-341 | four lookups in the one-byte table bring in a word |
| Crc32c.Extend | abseil-cpp/absl/crc/internal/crc.cc:256-355 | leading bytes, interleaved strides, single words and trailing bytes, from any address, together compute the bitwise remainder |
| Crc32c.PolyMultiply | abseil-cpp/absl/crc/internal/crc.cc:83-98 | the loop computes the sum of the shifted multiplicands |
| Crc32c.ProductWithPower | abseil-cpp/absl/crc/internal/crc.cc:83-98 | multiplying by x^n is taking n steps of one zero bit |
| Crc32c.TableStep64 | abseil-cpp/absl/crc/internal/crc.cc:387-388 | one lookup takes eight bits off a word of 64 and reduces them |
| Crc32c.HornerIsProduct | abseil-cpp/absl/crc/internal/crc.cc:379-391 | reading the multiplier from its lowest bit gives the same product as from its highest |
| Crc32c.SumReduces | abseil-cpp/absl/crc/internal/crc.cc:381-388 | eight carry-less multiples, summed before they are reduced, are each reduced as often as they must be |
| Crc32c.MultiplyByTable | abseil-cpp/absl/crc/internal/crc.cc:372-390 | the multiplication two bits at a time with a local table is `PolyMultiply` |
| Crc32c.FillZeroesTable | abseil-cpp/absl/crc/internal/crc.cc:137-162 | the loop ends when the 64-bit length overflows, and entry 15k+a-1 is the power for a*16^k zero bytes |
| Crc32c.ExtendByZeroesImpl | abseil-cpp/absl/crc/internal/crc.cc:357-395 | one product per base-16 digit of the length extends by that many zero bytes |
| Crc32c.ReversedStep | abseil-cpp/absl/crc/internal/crc.cc:231-245 | a step with the unextending polynomial on the reversed word is the inverse step of the comment's form (C) |
| Crc32c.ReversedStepUndoes | abseil-cpp/absl/crc/internal/crc.cc:225-248 | and it undoes, and is undone by, a step with the CRC32C polynomial |
| Crc32c.UnextendedUndoesBits | abseil-cpp/absl/crc/internal/crc.cc:401-407 | taking n zero bits away and adding them are inverse to each other |
| Crc32c.UnextendByZeroes | abseil-cpp/absl/crc/internal/crc.cc:401-407 | the digit-wise product with the other table on the reversed word takes the zero bytes away |
| Crc32c.ExtendByZeroes | abseil-cpp/absl/crc/internal/crc.cc:397-399 | the digit-wise product adds the zero bytes |
| Crc32c.ConcatLaw | abseil-cpp/absl/crc/crc32c.cc:67-71 | the checksum of A+B from those of A and B and the length of B, and as the continuation of A's by B |
| Crc32c.ExtendedInParts | abseil-cpp/absl/crc/crc32c.cc:48-53 | continuing with two buffers in turn is continuing with both at once |
| Crc32c.ExtendCrc32c | abseil-cpp/absl/crc/crc32c.cc:48-53 | continues a checksum over more bytes |
| Crc32c.ComputeCrc32c | abseil-cpp/absl/crc/crc32c.cc:57-59 | the checksum of a buffer |
| CrcRemainder.CrcIsRemainder | abseil-cpp/absl/crc/crc32c.cc:57-59 | for every buffer, a word is its checksum if and only if its complement is the remainder, by the generator of section 12.1 of RFC 3720 given by its exponents, of the buffer and 32 zero bits after it, the first 32 bits of all that complemented |
| CrcRemainder.ExtendedIsRemainder | abseil-cpp/absl/crc/internal/crc.cc:256-355 | the same for any start of the state, as the engine extends it |
| CrcRemainder.RemainderIsUnique | abseil-cpp/absl/crc/internal/crc.cc:256-355 | no dividend has two remainders |
| CrcRemainder.GeneratorTerms | abseil-cpp/absl/crc/internal/crc.cc:73 | the engine's constant is that generator without its leading term, bit for bit |
| CrcRemainder.CrcOfZeroByte | abseil-cpp/absl/crc/crc32c.cc:57-59 | the checksum of a single zero byte, in numbers |
| Crc32c.ConcatCrc32c | abseil-cpp/absl/crc/crc32c.cc:67-71 | for all buffers, the checksum of the whole from those of the parts |
| Crc32c.RemoveCrc32cPrefix | abseil-cpp/absl/crc/crc32c.cc:73-75 | for all buffers, the checksum of B from those of A and A+B |
| Crc32c.RemoveCrc32cSuffix | abseil-cpp/absl/crc/crc32c.cc:90-96 | for all buffers, the checksum of A from those of A+B and B |
| Crc32c.ExtendCrc32cByZeroes | abseil-cpp/absl/crc/crc32c.cc:61-65 | the same as continuing with that many zero bytes |
| Crc32c.UnextendCrc32cByZeroes | abseil-cpp/absl/crc/crc32c.cc:40-44 | the only checksum that the zero bytes extend to the given one |
| Flags.SplitNameAndValue | abseil-cpp/absl/flags/parse.cc:277-299 | name, equals sign and value put together are the argument, and the name holds no equals sign |
| Flags.LocateFlag | abseil-cpp/absl/flags/parse.cc:306-316 | a written name is a registered one, or one after "no" |
| Flags.DeduceFlagValue | abseil-cpp/absl/flags/parse.cc:505-589 | succeeds exactly on the supported forms; a written value is kept, one further argument is taken only by a flag that is not boolean, and none on failure |
| Flags.FailureStillSets | abseil-cpp/absl/flags/parse.cc:850-869 | when no value can be deduced parsing fails, and a setting, to the empty text, is made if and only if the flag is not retired and takes that |
| Flags.MissingValueIsSetEmpty | abseil-cpp/absl/flags/parse.cc:556-563 | the input: a text flag without a value as the last argument |
| Flags.ReadFromFlagfile | abseil-cpp/absl/flags/parse.cc:186-233 | the text of a file is read if and only if all its lines are arguments or ignorable, and gives them in order |
| Flags.ReadFlagfiles | abseil-cpp/absl/flags/parse.cc:346-360 | the lists of the readable files lie on the stack with the first on top |
| Flags.ReadFlagsFromEnv | abseil-cpp/absl/flags/parse.cc:367-408 | one list of the settings found, only if every name is allowed and, where it must be, present |
| Flags.HandleGeneratorFlags | abseil-cpp/absl/flags/parse.cc:414-470 | everything that waits is pushed so that it is run in the order of `Lists`; files given on the command line are recorded |
| Flags.GeneratedUnwinds | abseil-cpp/absl/flags/parse.cc:420-437 | pushing the lists amounts to running them, in order, before anything else on the stack |
| Flags.ArgumentRound | abseil-cpp/absl/flags/parse.cc:786-869 | one round takes one argument off the top list and leaves the recursive reading of the rest |
| Flags.ParseAbseilFlagsOnly | abseil-cpp/absl/flags/parse.cc:741-880 | for any files and environment that nest to some depth, the loop over the stack ends and makes the settings, in order, that the recursive reading makes, with the same positional arguments, unknown flags, failures and aborts |
| Flags.DeeperIsTheSame | abseil-cpp/absl/flags/parse.cc:778-870 | the bound on the nesting has no influence on the result |
| Flags.NestsIffRanked | abseil-cpp/absl/flags/parse.cc:420-445 | the lists that arguments reach nest to some depth, so that parsing ends, if and only if files and environment lists can be ranked so that each names only lower ones |
| Flags.RankedFilesNest | abseil-cpp/absl/flags/parse.cc:430-445 | if no setting in the environment hides a generator flag, ranking the files alone is enough, whatever the arguments: each file names only lower ones, itself or through the environment |
| Flags.EnvironmentIsFlatIff | abseil-cpp/absl/flags/parse.cc:377-400 | a setting that the guard lets through makes the environment be read again if and only if its name begins with a live generator flag's name and an equals sign and the rest is accepted |
| Flags.EnvironmentCanNameItself | abseil-cpp/absl/flags/parse.cc:378-385 | the input: a variable whose name holds an equals sign, with which the arguments nest to no depth |
| Flags.PlainNamesAreFlat | abseil-cpp/absl/flags/parse.cc:377-400 | if no name in the environment holds an equals sign, no setting in it hides a generator flag |
| Flags.SettingsThenMore | abseil-cpp/absl/flags/parse.cc:778-870 | settings on a command line or in a file are made one by one, in order, before whatever follows them |
| Flags.WrittenSettingsAreRead | abseil-cpp/absl/flags/parse.cc:186-233 | a file of settings written one a line is a flag file, and reading it makes exactly those settings, if no name or value has a line break in it |
| Flags.FlagfileTakesEffectInPlace | abseil-cpp/absl/flags/parse.cc:420-437 | the settings in a file that the command line names are made after those before the name and before those after it, and the file is recorded |
| Flags.DashesEndTheFlags | abseil-cpp/absl/flags/parse.cc:823-831 | on the command line, what follows "--" is positional, whatever it looks like |
| Flags.WrittenForms | abseil-cpp/absl/flags/parse.cc:505-589 | the form with an equals sign, the value as the next argument, the bare name of a boolean flag and its name after "no" all make just the one setting, under exactly what each needs |
| CommandLine.CommandLineIsRead | abseil-cpp/absl/flags/parse.cc:741-880 | any command line of settings in any form, refused values, retired flags, texts, usage flags, unknown names, flag files of such items to any depth, and environment lists is parsed into exactly its settings in order, its texts, its unknown names with where they stood, and its files, and fails if and only if a value is refused; texts after "--" are positional |
| CommandLine.ItemsRun | abseil-cpp/absl/flags/parse.cc:778-870 | items have their outcome one by one, before whatever follows them |
| CommandLine.TextInAFileAborts | abseil-cpp/absl/flags/parse.cc:805-829 | a text or "--" in a file or the environment aborts, after the settings before it have been made |
| CommandLine.OneDashOrTwo | abseil-cpp/absl/flags/parse.cc:277-299 | an argument means the same with one dash as with two |
| CommandLine.PiecesOfJoined | abseil-cpp/absl/flags/parse.cc:367-408 | a list joined by commas is split into its parts |
| CommandLine.ListsBeforeAllElse | abseil-cpp/absl/flags/parse.cc:414-470 | what waits when parsing begins is run first: tryfromenv, then fromenv, then the files from first to last |
| CommandLine.FileLinesAreRead | abseil-cpp/absl/flags/parse.cc:186-233 | a file of blank lines, comments and arguments, each after any white space, is read as its arguments in order |
| CommandLine.OtherLineSpoilsTheFile | abseil-cpp/absl/flags/parse.cc:215-230 | any other line, "--" among them, makes the whole file unreadable |

## Left out

- The widths of `int32_t` and `size_t` in coordinates, timers and counters: numbers are unbounded. The 64-bit length of `FillZeroesTable` and the 32-bit control word and checksums keep their widths.
- `removeEntity` (game.cpp:219-225): nothing calls it, and it leaves the entity in the list. So `removed` never becomes true.
- Board.Board.ClearAllTiles: may only be called while no vision is cached, because it dirties nothing; its one caller meets that.
- Floating point: an entity's charge is the rounded integer, from 1 to 120, and lengths are compared by their squares, which for whole cells is the same comparison.
- Turns.DrawBoard: the program draws boards until one leaves the centre free; the model takes the draws as a sequence that holds such a board. That `SomeDrawLeavesCentreFree` makes one possible does not say that dice ever throw it.
- Turns.State.constructor: the same.
- Screen.Play: the same; and the number of ticks is given, where the program stops at a signal.
- Dice and clocks are arbitrary choices. Timing, signals, terminal modes, the wording of the status line and the UTF-8 bytes of a glyph are not modelled; writing a glyph is one event.
- Screen.Terminal.Tick: a glyph with no room to the right of the cursor is lost, and a cursor sent off the screen stays at its edge. A terminal that wraps instead would scroll under a status text as wide as the screen; the one that the program writes is about two dozen characters long.
- FovTrie.Fov.FieldOfVision: the callback is a function from state to state where the program passes a lambda with captured references; nothing else can see that state during the visit.
- Species data, colour arithmetic and display names are tables.
- Crc32c.Extend: the hardware paths that compute the same remainder are not modelled.
- `MemcpyCrc32c`, scrambling, and the printing of checksums.
- CallOnce.FunctionRunsOnce: memory is sequentially consistent, the function returns normally, and scheduling modes are ignored. A delay is a futex wait that may also end early; spinning delays of other systems are early endings.
- Flags.ParseAbseilFlagsOnly: files or environment lists that name each other in a circle (those that no ranking orders, see `NestsIffRanked`), for which the program need not end; whether a text can be parsed for a flag's type, and which names are usage flags, are parameters; help output, misspelling hints, the list of undefined flags that are allowed, the final value of the generator flags, and locks are not modelled.

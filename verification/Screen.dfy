/** Rendering a state and bringing the terminal up to date with it: render in game.cpp, tick in main.cpp. */
module Screen {
  import opened Geometry
  import opened Lighting
  import opened Terrain
  import opened Turns
  import Keys
  import B = Board

  // ----- a terminal -----

  /** A wide glyph takes two cells; a narrow character takes one. */
  datatype Cell = Narrow(ch: nat, fg: nat, bg: nat) | Lead(glyph: Glyph) | Tail

  const BLANK := Narrow(' ' as int, NO_COLOR, NO_COLOR)

  datatype Write =
    | MoveCursor(to: Point)
    | SetForeground(color: nat)
    | SetBackground(color: nat)
    | EraseLine
    | Put(ch: nat)
    | PutWide(ch: nat)

  /** A screen of a given size, of which only the cells that are not blank are recorded. */
  datatype Display = Display(size: Point, cursor: Point, fg: nat, bg: nat, cells: map<Point, Cell>) {
    function At(p: Point): Cell {
      if p in cells then cells[p] else BLANK
    }

    predicate HasRoom(p: Point) {
      InBounds(size, p) && InBounds(size, Right(p))
    }

    /** Writing over one half of a wide glyph wipes out the other half. */
    function Wiped(p: Point): (d: Display)
      ensures d.cursor == cursor && d.fg == fg && d.bg == bg && d.size == size
    {
      match At(p)
      case Lead(_) => this.(cells := cells[Right(p) := BLANK])
      case Tail => this.(cells := cells[Point(p.x - 1, p.y) := BLANK])
      case Narrow(_, _, _) => this
    }

    /** The cursor never leaves the screen by being moved; what is written where there is no room is lost. */
    function Apply(w: Write): (d: Display)
      ensures d.size == size
    {
      match w
      case MoveCursor(to) => this.(cursor := Point(Clamped(to.x, size.x), Clamped(to.y, size.y)))
      case SetForeground(color) => this.(fg := color)
      case SetBackground(color) => this.(bg := color)
      case EraseLine => this.(cells := map p | p in cells && p.y != cursor.y :: cells[p])
      case Put(ch) =>
        if !InBounds(size, cursor) then this
        else
          var d := Wiped(cursor);
          d.(cells := d.cells[cursor := Narrow(ch, fg, bg)], cursor := Right(cursor))
      case PutWide(ch) =>
        if !HasRoom(cursor) then this
        else
          var d := Wiped(cursor).Wiped(Right(cursor));
          d.(cells := d.cells[cursor := Lead(Glyph(ch, fg, bg))][Right(cursor) := Tail], cursor := Right(Right(cursor)))
    }
  }

  function Clamped(n: int, size: int): int {
    Max(0, Min(n, size - 1))
  }

  function Right(p: Point): Point {
    Point(p.x + 1, p.y)
  }

  const WIDE_SPACE: nat := 0xff00

  const EMPTY := Wide(' ', NO_COLOR)

  /** The screen has both cells from p on, and they show the glyph; a wide space is shown as two narrow ones. */
  predicate Displays(d: Display, p: Point, g: Glyph) {
    d.HasRoom(p) &&
    if g.ch == WIDE_SPACE then
      d.At(p) == d.At(Right(p)) == Narrow(' ' as int, g.fg, g.bg)
    else
      d.At(p) == Lead(g) && d.At(Right(p)) == Tail
  }

  // ----- frames -----

  type Frame = m: Matrix<Glyph> | m.Valid() witness Matrix(ORIGIN, Glyph(0, 0, 0), [])

  predicate IsEven(n: int) {
    n % 2 == 0
  }

  lemma NextEven(n: int)
    requires IsEven(n)
    ensures IsEven(n + 2)
  {}

  predicate IsColumn(size: Point, p: Point) {
    InBounds(size, p) && InBounds(size, Right(p)) && IsEven(p.x)
  }

  /** What render leaves: wide glyphs in the even columns, and the odd ones as they have always been. */
  ghost predicate Drawable(last: Frame, frame: Frame) {
    && frame.size == last.size && frame.size.x >= 1 && frame.size.x % 2 == 0 && frame.init == last.init
    && forall p: Point :: frame.Contains(p) ==>
         if p.x % 2 == 0 then frame.Get(p).ch >= WIDE_SPACE else frame.Get(p) == last.Get(p)
  }

  predicate Encloses(screen: Point, offset: Point, size: Point) {
    0 <= offset.x <= screen.x - size.x && 0 <= offset.y <= screen.y - size.y
  }

  /** No wide glyph straddles two columns there. */
  predicate IsWhole(d: Display, q: Point) {
    d.At(q) != Tail && !d.At(Right(q)).Lead? && (d.At(Right(q)) == Tail ==> d.At(q).Lead?)
  }

  /**
   * If the screen takes the whole frame, every glyph that has been drawn is on it, and none straddles two
   * columns; but the last row of the screen belongs to the status line.
   */
  ghost predicate Synced(d: Display, offset: Point, last: Frame) {
    Encloses(d.size, offset, last.size) ==>
      forall p: Point | IsColumn(last.size, p) ::
        var q := p.Plus(offset);
        && IsWhole(d, q)
        && (last.Get(p).ch >= WIDE_SPACE && q.y != d.size.y - 1 ==> Displays(d, q, last.Get(p)))
  }

  function Printed(d: Display, ch: nat): (d': Display)
    ensures d'.size == d.size
  {
    if ch == WIDE_SPACE then d.Apply(Put(' ' as int)).Apply(Put(' ' as int)) else d.Apply(PutWide(ch))
  }

  /** At a place where no wide glyph is cut in two, printing changes only the two cells it covers. */
  lemma PrintedCells(d: Display, ch: nat)
    requires d.HasRoom(d.cursor) && IsWhole(d, d.cursor)
    ensures var d' := Printed(d, ch);
      && d'.cursor == Right(Right(d.cursor)) && Displays(d', d.cursor, Glyph(ch, d.fg, d.bg))
      && forall q :: q != d.cursor && q != Right(d.cursor) ==> d'.At(q) == d.At(q)
  {
    var at := d.cursor;
    if ch == WIDE_SPACE {
      var d1 := d.Apply(Put(' ' as int));
      assert d1.At(at) == Narrow(' ' as int, d.fg, d.bg) && d1.At(Right(at)) != Tail && !d1.At(Right(at)).Lead?;
      assert forall q :: q != at && q != Right(at) ==> d1.At(q) == d.At(q);
    }
  }

  lemma PrintedPens(d: Display, ch: nat)
    ensures Printed(d, ch).fg == d.fg && Printed(d, ch).bg == d.bg
  {}

  lemma PrintingKeepsSync(d: Display, offset: Point, last: Frame, p: Point, g: Glyph)
    requires Synced(d, offset, last) && IsColumn(last.size, p) && g.ch >= WIDE_SPACE
    requires Encloses(d.size, offset, last.size) ==> d.cursor == p.Plus(offset)
    requires d.fg == g.fg && d.bg == g.bg
    ensures Synced(Printed(d, g.ch), offset, last.Set(p, g))
    ensures Encloses(d.size, offset, last.size) ==> Printed(d, g.ch).cursor == Right(Right(d.cursor))
  {
    last.GetAfterSet(p, g);
    if Encloses(d.size, offset, last.size) {
      PrintedCells(d, g.ch);
      hide Printed, Display.At;
      var d' := Printed(d, g.ch);
      forall q | IsColumn(last.size, q) && q != p
        ensures var r := q.Plus(offset); d'.At(r) == d.At(r) && d'.At(Right(r)) == d.At(Right(r))
      {}
    }
  }

  lemma SyncIsAboutCells(d: Display, d': Display, offset: Point, last: Frame)
    requires Synced(d, offset, last) && d'.cells == d.cells && d'.size == d.size
    ensures Synced(d', offset, last)
  {
    assert forall p :: d'.At(p) == d.At(p) && d'.HasRoom(p) == d.HasRoom(p);
  }

  /** Moving the cursor and changing colours draws nothing. */
  lemma PensDrawNothing(d: Display, offset: Point, last: Frame, w: Write)
    requires Synced(d, offset, last) && (w.MoveCursor? || w.SetForeground? || w.SetBackground?)
    ensures Synced(d.Apply(w), offset, last)
  {
    hide Synced;
    SyncIsAboutCells(d, d.Apply(w), offset, last);
  }

  /** The cursor goes where it is sent, if that is on the screen. */
  lemma CursorArrives(d: Display, offset: Point, size: Point, p: Point)
    requires Encloses(d.size, offset, size) && InBounds(size, p)
    ensures d.Apply(MoveCursor(offset.Plus(p))).cursor == p.Plus(offset)
  {}

  // ----- the status line -----

  /** What the status line shows in a column: the text ends one cell before the edge, and all else is blank. */
  function StatusAt(status: seq<nat>, width: nat, column: int): nat {
    var first := Max(0, width - |status| - 1);
    if first <= column < first + |status| then status[column - first] else ' ' as int
  }

  ghost predicate ShowsStatus(d: Display, status: seq<nat>) {
    d.size.x >= 0 &&
    forall q: Point | 0 <= q.x < d.size.x && q.y == d.size.y - 1 ::
      d.At(q) == Narrow(StatusAt(status, d.size.x, q.x), NO_COLOR, NO_COLOR)
  }

  /** A text that fits is shown whole, with one blank cell after it, and blanks before it. */
  lemma StatusIsWhole(d: Display, status: seq<nat>)
    requires ShowsStatus(d, status) && |status| < d.size.x
    ensures var y, first := d.size.y - 1, d.size.x - 1 - |status|;
      && (forall i | 0 <= i < |status| :: d.At(Point(first + i, y)) == Narrow(status[i], NO_COLOR, NO_COLOR))
      && (forall x | 0 <= x < first :: d.At(Point(x, y)) == BLANK)
      && d.At(Point(d.size.x - 1, y)) == BLANK
  {
    hide Display.At, ShowsStatus, StatusAt;
    forall x | 0 <= x < d.size.x
      ensures d.At(Point(x, d.size.y - 1)) == Narrow(StatusAt(status, d.size.x, x), NO_COLOR, NO_COLOR)
    {
      StatusCell(d, status, x);
    }
    StatusCells(status, d.size.x);
    var y, first := d.size.y - 1, d.size.x - 1 - |status|;
    forall x | 0 <= x < first
      ensures d.At(Point(x, y)) == BLANK
    {
      assert StatusAt(status, d.size.x, x) == ' ' as int;
    }
  }

  lemma StatusCell(d: Display, status: seq<nat>, x: int)
    requires ShowsStatus(d, status) && 0 <= x < d.size.x
    ensures d.At(Point(x, d.size.y - 1)) == Narrow(StatusAt(status, d.size.x, x), NO_COLOR, NO_COLOR)
  {
    hide Display.At, StatusAt;
  }

  lemma StatusCells(status: seq<nat>, width: int)
    requires |status| < width
    ensures forall i | 0 <= i < |status| :: StatusAt(status, width, width - 1 - |status| + i) == status[i]
    ensures forall x | 0 <= x < width - 1 - |status| :: StatusAt(status, width, x) == ' ' as int
    ensures StatusAt(status, width, width - 1) == ' ' as int
  {}

  /** Whatever is written in the last row, the rest of the screen stays in step. */
  lemma StatusKeepsSync(d: Display, d': Display, offset: Point, last: Frame)
    requires Synced(d, offset, last) && d'.size == d.size
    requires forall q: Point :: q.y != d.size.y - 1 ==> d'.At(q) == d.At(q)
    requires forall q: Point :: 0 <= q.x < d.size.x && q.y == d.size.y - 1 ==> d'.At(q).Narrow?
    ensures Synced(d', offset, last)
  {
    if Encloses(d.size, offset, last.size) {
      forall p: Point | IsColumn(last.size, p)
        ensures var q := p.Plus(offset);
          && IsWhole(d', q)
          && (last.Get(p).ch >= WIDE_SPACE && q.y != d.size.y - 1 ==> Displays(d', q, last.Get(p)))
      {
        hide Synced, Display.At, Matrix.Get;
        var q := p.Plus(offset);
        if q.y != d.size.y - 1 {
          assert d'.At(q) == d.At(q) && d'.At(Right(q)) == d.At(Right(q));
          SyncedAt(d, offset, last, p);
        } else {
          assert d'.At(q).Narrow? && d'.At(Right(q)).Narrow?;
        }
      }
    }
  }

  lemma SyncedAt(d: Display, offset: Point, last: Frame, p: Point)
    requires Synced(d, offset, last) && IsColumn(last.size, p) && Encloses(d.size, offset, last.size)
    ensures var q := p.Plus(offset);
      && IsWhole(d, q)
      && (last.Get(p).ch >= WIDE_SPACE && q.y != d.size.y - 1 ==> Displays(d, q, last.Get(p)))
  {}

  // ----- which screens are large enough -----

  /** C++ division of an int by two. */
  function Halve(n: int): int {
    if n >= 0 then n / 2 else -(-n / 2)
  }

  /** Where tick puts the corner of the frame. */
  function CornerOf(screen: Point, size: Point): Point {
    Point(Halve(screen.x - size.x), Halve(screen.y - size.y))
  }

  /** The margins on opposite sides of the frame, negative if the screen is too small, differ by at most one. */
  lemma FrameIsCentred(screen: Point, size: Point)
    ensures var near := CornerOf(screen, size);
      var far := screen.Minus(size).Minus(near);
      && Abs(far.x - near.x) <= 1 && Abs(near.x) <= Abs(far.x)
      && Abs(far.y - near.y) <= 1 && Abs(near.y) <= Abs(far.y)
  {}

  /** The frame fits, and the status line has a row of its own. */
  predicate IsLargeEnough(screen: Point, size: Point) {
    size.x <= screen.x && size.y < screen.y
  }

  ghost predicate ShowsFrame(d: Display, offset: Point, last: Frame) {
    forall p | IsColumn(last.size, p) :: Displays(d, p.Plus(offset), last.Get(p))
  }

  /** A glyph that is blank, where the status text is blank too. */
  predicate IsBare(g: Glyph, status: seq<nat>, width: int, x: int) {
    g == EMPTY && width >= 0 && StatusAt(status, width, x) == StatusAt(status, width, x + 1) == ' ' as int
  }

  /** In the last row of the frame there is nothing to see, and nothing of the status text either. */
  ghost predicate IsBareBelow(last: Frame, screen: Point, status: seq<nat>) {
    forall p | IsColumn(last.size, p) && p.y == last.size.y - 1 ::
      IsBare(last.Get(p), status, screen.x, p.x + CornerOf(screen, last.size).x)
  }

  lemma EnclosedIffItFits(screen: Point, size: Point)
    ensures Encloses(screen, CornerOf(screen, size), size) <==> size.x <= screen.x && size.y <= screen.y
  {}

  /** A frame that does not fit has a corner off the screen. */
  lemma TooSmallHidesACorner(d: Display, last: Frame)
    requires last.size.x >= 2 && last.size.x % 2 == 0 && last.size.y >= 1
    requires last.size.x > d.size.x || last.size.y > d.size.y
    ensures !ShowsFrame(d, CornerOf(d.size, last.size), last)
  {
    hide Displays;
    var offset := CornerOf(d.size, last.size);
    var near, far := ORIGIN, Point(last.size.x - 2, last.size.y - 1);
    assert IsColumn(last.size, near) && IsColumn(last.size, far);
    DisplayedOnScreen(d, near.Plus(offset), last.Get(near));
    DisplayedOnScreen(d, far.Plus(offset), last.Get(far));
  }

  lemma DisplayedOnScreen(d: Display, q: Point, g: Glyph)
    ensures Displays(d, q, g) ==> d.HasRoom(q)
  {}

  /** What the status line covers shows a glyph only if both are blank. */
  lemma UnderTheStatus(d: Display, status: seq<nat>, q: Point, g: Glyph)
    requires ShowsStatus(d, status) && d.HasRoom(q) && q.y == d.size.y - 1 && g.ch >= WIDE_SPACE
    ensures Displays(d, q, g) <==> IsBare(g, status, d.size.x, q.x)
  {
    assert d.At(q) == Narrow(StatusAt(status, d.size.x, q.x), NO_COLOR, NO_COLOR);
    assert d.At(Right(q)) == Narrow(StatusAt(status, d.size.x, q.x + 1), NO_COLOR, NO_COLOR);
    hide StatusAt, ShowsStatus;
  }

  /**
   * The screen shows the whole frame if and only if it is large enough, or else is just as high and has
   * nothing to show where the status line is.
   */
  lemma ShowsFrameIff(d: Display, last: Frame, status: seq<nat>)
    requires last.size.x >= 2 && last.size.x % 2 == 0 && last.size.y >= 1
    requires Synced(d, CornerOf(d.size, last.size), last) && ShowsStatus(d, status)
    requires forall p | IsColumn(last.size, p) :: last.Get(p).ch >= WIDE_SPACE
    ensures ShowsFrame(d, CornerOf(d.size, last.size), last) <==>
            || IsLargeEnough(d.size, last.size)
            || (last.size.x <= d.size.x && last.size.y == d.size.y && IsBareBelow(last, d.size, status))
  {
    hide Displays, Matrix.Get, IsBare, ShowsStatus, IsWhole, Synced;
    var offset := CornerOf(d.size, last.size);
    EnclosedIffItFits(d.size, last.size);
    if !Encloses(d.size, offset, last.size) {
      TooSmallHidesACorner(d, last);
    } else {
      forall p | IsColumn(last.size, p)
        ensures Displays(d, p.Plus(offset), last.Get(p)) <==>
                (p.y + offset.y == d.size.y - 1 ==> IsBare(last.Get(p), status, d.size.x, p.x + offset.x))
      {
        SyncedAt(d, offset, last, p);
        if p.y + offset.y == d.size.y - 1 {
          UnderTheStatus(d, status, p.Plus(offset), last.Get(p));
        }
      }
    }
  }

  class IO {
    const state: State
    var frame: Frame
    var inputs: seq<Keys.Input>

    constructor (state: State)
      requires state.Valid() && AllWide(state.board)
      ensures Ready() && this.state == state && inputs == []
      ensures frame == NewMatrix(Point(2 * state.board.tiles.size.x, state.board.tiles.size.y), Glyph(0, 0, 0))
    {
      hide AllWide;
      this.state := state;
      inputs := [];
      frame := NewMatrix(Point(2 * state.board.tiles.size.x, state.board.tiles.size.y), Glyph(0, 0, 0));
    }

    ghost predicate Ready()
      reads this`frame, state, state.board, state.board.fov`nodes, state.board.fov.nodes`children
      reads state.board.vision.Values, state.board.entities`pos, state.board.entities`moveTimer
      reads state.board.entities`turnTimer, state.board.entities`turns, state.board.entities`advances
    {
      && state.Valid()
      && frame.size == Point(2 * state.board.tiles.size.x, state.board.tiles.size.y)
      && AllWide(state.board)
    }

    /** What the player sees at a cell of the board, with no cache: whoever stands there, or the ground. */
    ghost function Seen(p: Point): Glyph
      reads state.board`tiles, state.board`entityAtPos, state.player`pos
    {
      if !state.board.ViewOf(state.player).Sees(p.Minus(state.player.pos)) then EMPTY
      else if p in state.board.entityAtPos then state.board.entityAtPos[p].glyph
      else state.board.GetTile(p).glyph
    }

    /** Whoever stands on a seen cell hides the ground, and an unseen cell shows neither. */
    lemma SeenIs()
      requires state.Valid()
      ensures forall e | e in state.board.entities ::
                Seen(e.pos) == if state.board.ViewOf(state.player).Sees(e.pos.Minus(state.player.pos)) then e.glyph
                               else Glyph(0xff00, 255, 255)
      ensures forall p | (forall e | e in state.board.entities :: e.pos != p) ::
                Seen(p) == if state.board.ViewOf(state.player).Sees(p.Minus(state.player.pos))
                           then state.board.tiles.Get(p).glyph else Glyph(0xff00, 255, 255)
    {
      hide State.Valid, View.Sees, Matrix.Get;
      ListedUnderTheirCells();
    }

    /** Draws the ground and then the entities, where the player's vision shows them. */
    method Render()
      requires Ready()
      modifies this`frame
      modifies state.board`vision, state.board.fov`cache, state.board.vision.Values
      ensures Ready() && frame.size == old(frame.size) && frame.init == old(frame.init)
      ensures fresh(state.board.vision.Values - old(state.board.vision.Values))
      ensures state.Now() == old(state.Now())
      ensures forall p: Point :: frame.Contains(p) ==>
                frame.Get(p) == if p.x % 2 == 1 then old(frame).Get(p) else Seen(Point(p.x / 2, p.y))
    {
      hide State.Valid, Matrix.Get, Seen;
      var vision := PlayersVision();
      DrawGround(vision);
      DrawEntities(vision);
    }

    method PlayersVision() returns (vision: B.Vision)
      requires state.Valid()
      modifies state.board`vision, state.board.fov`cache, state.board.vision.Values
      ensures state.Valid() && Trusted(vision)
      ensures fresh(state.board.vision.Values - old(state.board.vision.Values))
    {
      hide B.Board.Valid, B.CacheEntry.Shows, AllOnTime, Fair, Walled, Grounded, B.Board.Positions, B.Board.Times;
      vision := state.board.GetVision(state.player);
      CanSeeIsFresh(state.board.fov.radius, vision.Entry(), state.board.ViewOf(state.player));
    }

    /** The map answers as a fresh one would. */
    ghost predicate Trusted(vision: B.Vision)
      reads vision, state.board`tiles, state.player`pos
    {
      forall p: Point :: vision.CanSee(p) <==> state.board.ViewOf(state.player).Sees(p.Minus(state.player.pos))
    }

    lemma TrustedAt(vision: B.Vision, p: Point)
      requires Trusted(vision)
      ensures vision.CanSee(p) <==> state.board.ViewOf(state.player).Sees(p.Minus(state.player.pos))
    {}

    method DrawGround(vision: B.Vision)
      requires Trusted(vision) && frame.size == Point(2 * state.board.tiles.size.x, state.board.tiles.size.y)
      modifies this`frame
      ensures frame.size == old(frame.size) && frame.init == old(frame.init)
      ensures forall q: Point :: frame.Contains(q) ==>
                frame.Get(q) == if q.x % 2 == 0 then Ground(Point(q.x / 2, q.y)) else old(frame).Get(q)
    {
      hide Covered, View.Sees, Matrix.Get, Matrix.Set;
      var board := state.board;
      var size := board.tiles.size;
      ghost var base := frame;
      var y := 0;
      CoverNothing(base);
      while y < size.y
        invariant y >= 0 && Covered(base, frame, 0, y)
      {
        var x := 0;
        while x < size.x
          invariant x >= 0 && (x <= size.x || size.x < 0) && Covered(base, frame, x, y)
        {
          var p := Point(x, y);
          var seen := vision.CanSee(p);
          var glyph := if seen then board.GetTile(p).glyph else EMPTY;
          CoverCell(base, frame, x, y);
          frame := frame.Set(Point(2 * p.x, p.y), glyph);
          x := x + 1;
        }
        CoverRow(base, frame, x, y);
        y := y + 1;
      }
      CoverAll(base, frame, y);
    }

    /** The cells before (x, y) show the ground and the others are as they were. */
    ghost predicate Covered(base: Frame, now: Frame, x: int, y: int)
      reads state.board`tiles, state.player`pos
    {
      && now.size == base.size && now.init == base.init
      && forall q: Point :: now.Contains(q) ==>
           now.Get(q) == if q.x % 2 == 0 && Before(Point(q.x / 2, q.y), x, y) then Ground(Point(q.x / 2, q.y))
                         else base.Get(q)
    }

    lemma CoverNothing(base: Frame)
      ensures Covered(base, base, 0, 0)
    {}

    lemma CoverCell(base: Frame, now: Frame, x: int, y: int)
      requires Covered(base, now, x, y)
      ensures Covered(base, now.Set(Point(2 * x, y), Ground(Point(x, y))), x + 1, y)
    {
      hide Matrix.Get, Matrix.Set, Ground;
      now.GetAfterSet(Point(2 * x, y), Ground(Point(x, y)));
      forall q: Point | q.x % 2 == 0
        ensures Before(Point(q.x / 2, q.y), x + 1, y) <==> Before(Point(q.x / 2, q.y), x, y) || q == Point(2 * x, y)
      {}
      hide Before;
    }

    lemma CoverRow(base: Frame, now: Frame, x: int, y: int)
      requires Covered(base, now, x, y) && base.size.x <= 2 * x
      ensures Covered(base, now, 0, y + 1)
    {
      hide Matrix.Get, Ground;
    }

    lemma CoverAll(base: Frame, now: Frame, y: int)
      requires Covered(base, now, 0, y) && y >= base.size.y
      ensures now.size == base.size && now.init == base.init
      ensures forall q: Point :: now.Contains(q) ==>
                now.Get(q) == if q.x % 2 == 0 then Ground(Point(q.x / 2, q.y)) else base.Get(q)
    {
      hide Matrix.Get, Ground;
    }

    method DrawEntities(vision: B.Vision)
      requires state.Valid() && Trusted(vision)
      requires frame.size == Point(2 * state.board.tiles.size.x, state.board.tiles.size.y)
      requires forall q: Point :: frame.Contains(q) && q.x % 2 == 0 ==> frame.Get(q) == Ground(Point(q.x / 2, q.y))
      modifies this`frame
      ensures frame.size == old(frame.size) && frame.init == old(frame.init)
      ensures forall q: Point :: frame.Contains(q) ==>
                frame.Get(q) == if q.x % 2 == 0 then Seen(Point(q.x / 2, q.y)) else old(frame).Get(q)
    {
      hide State.Valid, View.Sees, Matrix.Get, Matrix.Set, Populated, Trusted;
      ghost var base := frame;
      NothingPopulated(base);
      var board := state.board;
      for i := 0 to |board.entities|
        invariant Populated(base, frame, i)
      {
        var entity := board.entities[i];
        TrustedAt(vision, entity.pos);
        NextPopulated(base, frame, i);
        if vision.CanSee(entity.pos) {
          frame := frame.Set(Point(2 * entity.pos.x, entity.pos.y), entity.glyph);
        }
      }
      AllPopulated(base, frame);
    }

    /** The even columns show the ground with the first n entities on it; the odd ones are as they were. */
    ghost predicate Populated(base: Frame, now: Frame, n: nat)
      requires n <= |state.board.entities|
      reads state.board`tiles, state.board`entities, state.board`entityAtPos, state.player`pos
    {
      && now.size == base.size && now.init == base.init
      && forall q: Point :: now.Contains(q) ==>
           now.Get(q) == if q.x % 2 == 0 then Drawn(Point(q.x / 2, q.y), n) else base.Get(q)
    }

    lemma NothingPopulated(base: Frame)
      requires forall q: Point :: base.Contains(q) && q.x % 2 == 0 ==> base.Get(q) == Ground(Point(q.x / 2, q.y))
      ensures Populated(base, base, 0)
    {
      hide Ground, Drawn, Matrix.Get;
      NothingDrawn();
    }

    lemma NextPopulated(base: Frame, now: Frame, i: nat)
      requires state.Valid() && i < |state.board.entities| && Populated(base, now, i)
      ensures var e := state.board.entities[i];
        Populated(base, if state.board.ViewOf(state.player).Sees(e.pos.Minus(state.player.pos))
                        then now.Set(Point(2 * e.pos.x, e.pos.y), e.glyph) else now, i + 1)
    {
      hide State.Valid, View.Sees, Matrix.Get, Matrix.Set, Drawn;
      var e := state.board.entities[i];
      NextDrawn(i);
      now.GetAfterSet(Point(2 * e.pos.x, e.pos.y), e.glyph);
    }

    lemma AllPopulated(base: Frame, now: Frame)
      requires state.Valid() && Populated(base, now, |state.board.entities|)
      ensures now.size == base.size && now.init == base.init
      ensures forall q: Point :: now.Contains(q) ==>
                now.Get(q) == if q.x % 2 == 0 then Seen(Point(q.x / 2, q.y)) else base.Get(q)
    {
      hide State.Valid, Matrix.Get, Drawn, Seen;
      AllDrawn();
    }

    lemma NothingDrawn()
      ensures forall p :: Drawn(p, 0) == Ground(p)
    {}

    lemma NextDrawn(i: nat)
      requires state.Valid() && i < |state.board.entities|
      ensures var e := state.board.entities[i];
        && (state.board.ViewOf(state.player).Sees(e.pos.Minus(state.player.pos)) ==>
              forall p :: Drawn(p, i + 1) == if p == e.pos then e.glyph else Drawn(p, i))
        && (!state.board.ViewOf(state.player).Sees(e.pos.Minus(state.player.pos)) ==>
              forall p :: Drawn(p, i + 1) == Drawn(p, i))
    {
      hide State.Valid, View.Sees;
      ListedUnderTheirCells();
      var board := state.board;
      var e := board.entities[i];
      assert forall f :: f in board.entities[..i + 1] <==> f in board.entities[..i] || f == e;
      assert board.entityAtPos[e.pos] == e && e in board.entities[..i + 1];
      assert Drawn(e.pos, i + 1) == Seen(e.pos);
      forall p
        ensures p != e.pos ==> Drawn(p, i + 1) == Drawn(p, i)
      {
        if p in board.entityAtPos {
          assert board.entityAtPos[p].pos == p;
        }
      }
    }

    lemma AllDrawn()
      requires state.Valid()
      ensures forall p :: Drawn(p, |state.board.entities|) == Seen(p)
    {
      hide State.Valid, View.Sees;
      ListedUnderTheirCells();
      assert state.board.entities[..|state.board.entities|] == state.board.entities;
    }

    ghost function Ground(p: Point): Glyph
      reads state.board`tiles, state.player`pos
    {
      if state.board.ViewOf(state.player).Sees(p.Minus(state.player.pos)) then state.board.GetTile(p).glyph else EMPTY
    }

    /** A cell once the first n entities have been drawn. */
    ghost function Drawn(p: Point, n: nat): Glyph
      requires n <= |state.board.entities|
      reads state.board`tiles, state.board`entities, state.board`entityAtPos, state.player`pos
    {
      if p in state.board.entityAtPos && state.board.entityAtPos[p] in state.board.entities[..n] then Seen(p)
      else Ground(p)
    }

    lemma ListedUnderTheirCells()
      requires state.Valid()
      ensures var board := state.board;
        && (forall i | 0 <= i < |board.entities| ::
              var e := board.entities[i]; e.pos in board.entityAtPos && board.entityAtPos[e.pos] == e)
        && (forall p | p in board.entityAtPos :: board.entityAtPos[p] in board.entities && board.entityAtPos[p].pos == p)
    {
      hide B.Board.Valid;
      state.board.ListedUnderTheirCells();
    }

    lemma FrameFitsBoard()
      requires Ready()
      ensures frame.size == Point(2 * state.board.tiles.size.x, state.board.tiles.size.y)
      ensures state.board.tiles.size.x >= 1 && state.board.tiles.size.y >= 1
    {
      state.board.PositionOf(state.player);
      CentreIsInside(state.board.tiles, state.player.pos);
    }

    lemma SeenIsWide()
      requires Ready()
      ensures forall p :: Seen(p).ch >= WIDE_SPACE
    {
      hide State.Valid, View.Sees;
      assert state.Valid() && AllWide(state.board);
      ListedUnderTheirCells();
    }

    /** One round of the game: everyone acts, and the frame shows what the player then sees. */
    method Tick()
      requires Ready()
      modifies this`frame, this`inputs, state`input, state`rounds
      modifies state.board`entityIndex, state.board`entityAtPos, state.board`vision, state.board.fov`cache
      modifies state.board.vision.Values
      modifies state.board.entities`pos, state.board.entities`moveTimer, state.board.entities`turnTimer
      modifies state.board.entities`turns, state.board.entities`advances
      ensures Ready() && frame.size == old(frame.size) && frame.init == old(frame.init)
      ensures fresh(state.board.vision.Values - old(state.board.vision.Values))
      ensures forall p: Point :: frame.Contains(p) ==>
                frame.Get(p) == if p.x % 2 == 1 then old(frame).Get(p) else Seen(Point(p.x / 2, p.y))
      ensures inputs == if old(!state.player.removed && state.Now().active)
                        then AfterMove(old(inputs), old(state.input)) else old(inputs)
      ensures !state.player.removed ==>
                old(state.Now().AfterInput(inputs)).UpdatesTo(state.board.tiles, state.Now())
    {
      hide Ready, State.Valid, Moment.UpdatesTo, AfterMove, FirstMove, Seen, Matrix.Get, AllWide;
      Update();
      Render();
    }

    method Update()
      requires Ready()
      modifies this`inputs, state`input, state`rounds
      modifies state.board`entityIndex, state.board`entityAtPos, state.board.vision.Values`dirty
      modifies state.board.entities`pos, state.board.entities`moveTimer, state.board.entities`turnTimer
      modifies state.board.entities`turns, state.board.entities`advances
      ensures Ready()
      ensures inputs == if old(!state.player.removed && state.Now().active)
                        then AfterMove(old(inputs), old(state.input)) else old(inputs)
      ensures !state.player.removed ==>
                old(state.Now().AfterInput(inputs)).UpdatesTo(state.board.tiles, state.Now())
    {
      hide State.Valid, Moment.UpdatesTo, AfterMove, FirstMove, Matrix.Get;
      inputs := state.Update(inputs);
    }
  }

  lemma CanSeeIsFresh(radius: nat, entry: B.CacheEntry, v: View)
    requires entry.Shows(radius, v)
    ensures forall p: Point :: entry.VisibilityAt(p) == v.LightAt(p.Minus(v.pos))
  {}

  // ----- the terminal -----

  class Terminal {
    const io: IO
    const terminalSize: Point
    var lastFrame: Frame
    /** What std::cout has made of the writes so far. */
    var display: Display

    /** The frame must be as IO made it: nothing has been rendered yet. */
    constructor (io: IO, terminalSize: Point)
      requires io.Ready() && forall p :: io.frame.Get(p) == Glyph(0, 0, 0)
      ensures Ready() && this.io == io && this.terminalSize == terminalSize && lastFrame == io.frame
      ensures forall p :: display.At(p) == BLANK
    {
      hide IO.Ready;
      this.io := io;
      this.terminalSize := terminalSize;
      lastFrame := io.frame;
      display := Display(terminalSize, ORIGIN, NO_COLOR, NO_COLOR, map[]);
    }

    ghost predicate Ready()
      reads this, io`frame, io.state, io.state.board, io.state.board.fov`nodes, io.state.board.fov.nodes`children
      reads io.state.board.vision.Values, io.state.board.entities`pos, io.state.board.entities`moveTimer
      reads io.state.board.entities`turnTimer, io.state.board.entities`turns, io.state.board.entities`advances
    {
      && io.Ready()
      && io.frame.size == lastFrame.size && io.frame.init == lastFrame.init
      && (forall p: Point :: p.x % 2 == 1 ==> io.frame.Get(p) == lastFrame.Get(p))
      && display.size == terminalSize && Synced(display, Offset(), lastFrame)
    }

    function Offset(): Point
      reads this`lastFrame
    {
      CornerOf(terminalSize, lastFrame.size)
    }

    method Emit(w: Write)
      modifies this`display
      ensures display == old(display).Apply(w)
    {
      display := display.Apply(w);
    }

    /** The diff loop of tick: after it the screen shows the whole frame, though only changed spans were written. */
    method DrawFrame(frame: Frame)
      requires Drawable(lastFrame, frame) && Synced(display, Offset(), lastFrame)
      modifies this`lastFrame, this`display
      ensures lastFrame.size == frame.size && lastFrame.init == frame.init && display.size == old(display).size
      ensures forall p: Point :: lastFrame.Get(p) == frame.Get(p)
      ensures Synced(display, Offset(), lastFrame)
    {
      hide Matrix.Get, Synced;
      var size := lastFrame.size;
      var offset := Offset();
      var row := 0;
      while row < size.y
        invariant row >= 0 && lastFrame.size == size && lastFrame.init == frame.init
        invariant display.size == old(display).size && Synced(display, offset, lastFrame)
        invariant forall p: Point :: lastFrame.Get(p) == if 0 <= p.y < row then frame.Get(p) else old(lastFrame).Get(p)
      {
        DrawRow(frame, offset, row);
        row := row + 1;
      }
      frame.GetOutside();
      old(lastFrame).GetOutside();
    }

    method SetColors(fg: nat, bg: nat)
      modifies this`display
      ensures display == old(display).Apply(SetForeground(fg)).Apply(SetBackground(bg))
    {
      Emit(SetForeground(fg));
      Emit(SetBackground(bg));
    }

    /** The first and last column where a row has changed; the first is past the last if none has. */
    method ChangedSpan(frame: Frame, row: int) returns (minCol: int, maxCol: int)
      requires Drawable(lastFrame, frame) && 0 <= row < frame.size.y
      ensures forall p: Point :: p.y == row && (p.x < minCol || maxCol < p.x) ==> lastFrame.Get(p) == frame.Get(p)
      ensures minCol <= maxCol ==> 0 <= minCol && maxCol < frame.size.x && IsEven(minCol)
    {
      var size := lastFrame.size;
      minCol, maxCol := size.x, 0;
      for col := 0 to size.x
        invariant if minCol == size.x then maxCol == 0 else 0 <= minCol <= maxCol < col && IsEven(minCol)
        invariant forall p: Point :: p.y == row && p.x < col && (p.x < minCol || maxCol < p.x) ==>
                    lastFrame.Get(p) == frame.Get(p)
      {
        var point := Point(col, row);
        var oldGlyph := lastFrame.Get(point);
        var newGlyph := frame.Get(point);
        if oldGlyph == newGlyph { continue; }
        minCol := Min(minCol, col);
        maxCol := Max(maxCol, col);
      }
    }

    /** Moves the cursor to the first cell of a span and takes up its colours. */
    method StartSpan(offset: Point, point: Point, glyph: Glyph)
      requires Synced(display, offset, lastFrame) && InBounds(lastFrame.size, point)
      modifies this`display
      ensures display.size == old(display).size && Synced(display, offset, lastFrame)
      ensures display.fg == glyph.fg && display.bg == glyph.bg
      ensures Encloses(display.size, offset, lastFrame.size) ==> display.cursor == point.Plus(offset)
    {
      hide Synced;
      if Encloses(display.size, offset, lastFrame.size) {
        CursorArrives(display, offset, lastFrame.size, point);
      }
      PensDrawNothing(display, offset, lastFrame, MoveCursor(offset.Plus(point)));
      Emit(MoveCursor(offset.Plus(point)));
      PensDrawNothing(display, offset, lastFrame, SetForeground(glyph.fg));
      PensDrawNothing(display.Apply(SetForeground(glyph.fg)), offset, lastFrame, SetBackground(glyph.bg));
      SetColors(glyph.fg, glyph.bg);
    }

    /** The body of the loop over rows. */
    method DrawRow(frame: Frame, offset: Point, row: int)
      requires Drawable(lastFrame, frame) && Synced(display, offset, lastFrame)
      requires 0 <= row < frame.size.y
      modifies this`lastFrame, this`display
      ensures lastFrame.size == frame.size && lastFrame.init == frame.init && display.size == old(display).size
      ensures forall p: Point :: lastFrame.Get(p) == if p.y == row then frame.Get(p) else old(lastFrame).Get(p)
      ensures Synced(display, offset, lastFrame)
    {
      assert frame.size == lastFrame.size && frame.init == lastFrame.init;
      hide Matrix.Get, Matrix.Set, Synced, Encloses, IsEven, IsColumn, Drawable;
      var minCol, maxCol := ChangedSpan(frame, row);
      if minCol > maxCol { return; }
      ghost var last := lastFrame;
      var point := Point(minCol, row);
      var glyph := frame.Get(point);
      StartSpan(offset, point, glyph);
      var prev := glyph;
      var col := minCol;
      assert RowDone(last, frame, lastFrame, row, col);
      hide RowDone;
      while col <= maxCol
        invariant minCol <= col <= maxCol + 2 && IsEven(col) && display.size == old(display).size
        invariant RowDone(last, frame, lastFrame, row, col) && lastFrame.size == frame.size
        invariant Synced(display, offset, lastFrame)
        invariant Encloses(display.size, offset, frame.size) ==> display.cursor == Point(col, row).Plus(offset)
        invariant display.fg == prev.fg && display.bg == prev.bg
        decreases maxCol - col
      {
        point := Point(col, row);
        glyph := frame.Get(point);
        RowDoneNext(last, frame, lastFrame, row, col);
        var width := DrawGlyph(prev, glyph, offset, point);
        NextEven(col);
        prev := glyph;
        col := col + width;
      }
      RowDoneEnds(last, frame, lastFrame, row, col);
    }

    /** The row agrees with the new frame up to the column, and everything else is as it was. */
    ghost predicate RowDone(last: Frame, frame: Frame, now: Frame, row: int, col: int) {
      && now.size == frame.size && now.init == frame.init
      && (forall p: Point :: p.y == row && p.x < col ==> now.Get(p) == frame.Get(p))
      && (forall p: Point :: p.y != row || col <= p.x ==> now.Get(p) == last.Get(p))
    }

    lemma RowDoneNext(last: Frame, frame: Frame, now: Frame, row: int, col: int)
      requires Drawable(last, frame) && RowDone(last, frame, now, row, col)
      requires 0 <= row < frame.size.y && 0 <= col < frame.size.x && IsEven(col)
      ensures RowDone(last, frame, now.Set(Point(col, row), frame.Get(Point(col, row))), row, col + 2)
      ensures frame.Get(Point(col, row)).ch >= WIDE_SPACE && IsColumn(now.size, Point(col, row))
    {
      hide Matrix.Get, Matrix.Set;
      var glyph := frame.Get(Point(col, row));
      now.GetAfterSet(Point(col, row), glyph);
      last.GetOutside();
      frame.GetOutside();
      assert frame.Get(Point(col + 1, row)) == last.Get(Point(col + 1, row));
    }

    lemma RowDoneEnds(last: Frame, frame: Frame, now: Frame, row: int, col: int)
      requires RowDone(last, frame, now, row, col)
      requires forall p: Point :: p.y == row && col <= p.x ==> last.Get(p) == frame.Get(p)
      ensures now.size == frame.size && now.init == frame.init
      ensures forall p: Point :: now.Get(p) == if p.y == row then frame.Get(p) else last.Get(p)
    {
      hide Matrix.Get;
    }

    /** The body of the loop over the columns of a changed span. */
    method DrawGlyph(prev: Glyph, glyph: Glyph, ghost offset: Point, point: Point) returns (width: nat)
      requires Synced(display, offset, lastFrame) && IsColumn(lastFrame.size, point)
      requires Encloses(display.size, offset, lastFrame.size) ==> display.cursor == point.Plus(offset)
      requires display.fg == prev.fg && display.bg == prev.bg
      modifies this`lastFrame, this`display
      ensures lastFrame == old(lastFrame).Set(point, glyph) && display.size == old(display).size
      ensures display.fg == glyph.fg && display.bg == glyph.bg
      ensures width == if glyph.ch >= WIDE_SPACE then 2 else 1
      ensures Encloses(display.size, offset, lastFrame.size) && glyph.ch >= WIDE_SPACE ==>
                display.cursor == Point(point.x + width, point.y).Plus(offset)
      ensures glyph.ch >= WIDE_SPACE ==> Synced(display, offset, lastFrame)
    {
      hide Synced, Encloses, Display.Wiped;
      PensDrawNothing(display, offset, lastFrame, SetForeground(glyph.fg));
      if glyph.fg != prev.fg { Emit(SetForeground(glyph.fg)); }
      PensDrawNothing(display, offset, lastFrame, SetBackground(glyph.bg));
      if glyph.bg != prev.bg { Emit(SetBackground(glyph.bg)); }
      if glyph.ch >= WIDE_SPACE {
        PrintingKeepsSync(display, offset, lastFrame, point, glyph);
        PrintedPens(display, glyph.ch);
      }
      lastFrame := lastFrame.Set(point, glyph);
      if glyph.ch == WIDE_SPACE {
        Emit(Put(' ' as int));
        Emit(Put(' ' as int));
        width := 2;
      } else if glyph.ch > WIDE_SPACE {
        Emit(PutWide(glyph.ch));
        width := 2;
      } else {
        Emit(Put(glyph.ch));
        width := 1;
      }
    }

    /** Erases the last row of the screen and writes the status text at its end. */
    method DrawStatus(status: seq<nat>)
      modifies this`display
      ensures display.size == old(display).size
      ensures forall q: Point :: q.y != Clamped(terminalSize.y - 1, display.size.y) ==> display.At(q) == old(display).At(q)
      ensures display.size == terminalSize && terminalSize.x >= 0 && terminalSize.y >= 1 ==> ShowsStatus(display, status)
    {
      var col := terminalSize.x - |status|;
      Emit(MoveCursor(Point(col - 1, terminalSize.y - 1)));
      SetColors(NO_COLOR, NO_COLOR);
      Emit(EraseLine);
      ghost var start := display;
      ghost var row, first := start.cursor.y, start.cursor.x;
      for i := 0 to |status|
        invariant display.size == start.size && display.fg == NO_COLOR && display.bg == NO_COLOR
        invariant display.cursor.y == row && forall q: Point :: q.y != row ==> display.At(q) == start.At(q)
        invariant forall c :: display.At(Point(c, row)).Narrow?
        invariant display.size == terminalSize && terminalSize.x >= 0 && terminalSize.y >= 1 ==>
                    && display.cursor.x == Min(first + i, Max(first, terminalSize.x))
                    && forall c | 0 <= c < terminalSize.x :: display.At(Point(c, row)) ==
                         Narrow(if first <= c < first + i then status[c - first] else ' ' as int, NO_COLOR, NO_COLOR)
      {
        ghost var before := display;
        Emit(Put(status[i]));
        PutInRow(before, status[i]);
      }
    }

    /** Writing a character into a row of characters changes one of them. */
    lemma PutInRow(d: Display, ch: nat)
      requires d.At(d.cursor).Narrow?
      ensures var d' := d.Apply(Put(ch));
        if InBounds(d.size, d.cursor) then
          && d'.cursor == Right(d.cursor) && d'.fg == d.fg && d'.bg == d.bg
          && forall q :: d'.At(q) == if q == d.cursor then Narrow(ch, d.fg, d.bg) else d.At(q)
        else d' == d
    {}

    /** Brings the screen up to date with the frame of the game. */
    method Redraw(status: seq<nat>)
      requires io.Ready() && display.size == terminalSize
      requires io.frame.size == lastFrame.size && io.frame.init == lastFrame.init
      requires forall p: Point :: p.x % 2 == 1 ==> io.frame.Get(p) == lastFrame.Get(p)
      requires forall p: Point :: io.frame.Contains(p) && p.x % 2 == 0 ==> io.frame.Get(p) == io.Seen(Point(p.x / 2, p.y))
      requires Synced(display, Offset(), lastFrame)
      modifies this`lastFrame, this`display
      ensures Ready()
      ensures forall p: Point :: lastFrame.Get(p) == io.frame.Get(p)
      ensures terminalSize.x >= 0 && terminalSize.y >= 1 ==> ShowsStatus(display, status)
    {
      hide IO.Ready, IO.Seen, Matrix.Get, Synced, Displays, Display.At, ShowsStatus, CornerOf, Clamped;
      io.SeenIsWide();
      io.FrameFitsBoard();
      DrawFrame(io.frame);
      ghost var drawn := display;
      DrawStatus(status);
      SyncedUnderStatus(drawn, display, Offset(), lastFrame, status);
    }

    lemma SyncedUnderStatus(d: Display, d': Display, offset: Point, last: Frame, status: seq<nat>)
      requires Synced(d, offset, last) && d'.size == d.size && last.size.x >= 1 && last.size.y >= 1
      requires forall q: Point :: q.y != Clamped(d.size.y - 1, d.size.y) ==> d'.At(q) == d.At(q)
      requires d.size.x >= 0 && d.size.y >= 1 ==> ShowsStatus(d', status)
      ensures Synced(d', offset, last)
    {
      if Encloses(d.size, offset, last.size) {
        assert forall q: Point :: 0 <= q.x < d.size.x && q.y == d.size.y - 1 ==> d'.At(q).Narrow?;
        hide Synced, Display.At, ShowsStatus;
        StatusKeepsSync(d, d', offset, last);
      }
    }

    /** Every cell of the board is on the screen as the player sees it. */
    ghost predicate ShowsBoard()
      reads this`display, this`lastFrame, io.state.board`tiles, io.state.board`entityAtPos, io.state.player`pos
    {
      forall p: Point | InBounds(io.state.board.tiles.size, p) ::
        Displays(display, Point(2 * p.x, p.y).Plus(Offset()), io.Seen(p))
    }

    /** The player sees nothing in the last row of the board, and the status text leaves it alone. */
    ghost predicate NothingBelow(status: seq<nat>)
      reads this`lastFrame, io.state.board`tiles, io.state.board`entityAtPos, io.state.player`pos
    {
      forall p: Point | InBounds(io.state.board.tiles.size, p) && p.y == io.state.board.tiles.size.y - 1 ::
        IsBare(io.Seen(p), status, terminalSize.x, 2 * p.x + Offset().x)
    }

    ghost predicate FrameIsBoard()
      reads this`lastFrame, io.state.board`tiles, io.state.board`entityAtPos, io.state.player`pos
    {
      && lastFrame.size == Point(2 * io.state.board.tiles.size.x, io.state.board.tiles.size.y)
      && forall p | IsColumn(lastFrame.size, p) :: lastFrame.Get(p) == io.Seen(Point(p.x / 2, p.y))
    }

    /** The frame and the board have the same cells. */
    lemma ColumnOfCell(p: Point)
      requires FrameIsBoard() && InBounds(io.state.board.tiles.size, p)
      ensures IsColumn(lastFrame.size, Point(2 * p.x, p.y)) && lastFrame.Get(Point(2 * p.x, p.y)) == io.Seen(p)
    {
      hide Matrix.Get, IO.Seen;
      assert Point(2 * p.x / 2, p.y) == p;
    }

    lemma CellOfColumn(q: Point)
      requires FrameIsBoard() && IsColumn(lastFrame.size, q)
      ensures var p := Point(q.x / 2, q.y);
        InBounds(io.state.board.tiles.size, p) && q == Point(2 * p.x, p.y) && lastFrame.Get(q) == io.Seen(p)
    {
      hide Matrix.Get, IO.Seen;
    }

    lemma ShowsBoardIsShowsFrame()
      requires FrameIsBoard()
      ensures ShowsBoard() <==> ShowsFrame(display, Offset(), lastFrame)
    {
      hide Displays, Matrix.Get, IO.Seen, CornerOf, FrameIsBoard, IsColumn;
      if ShowsFrame(display, Offset(), lastFrame) {
        forall p: Point | InBounds(io.state.board.tiles.size, p)
          ensures Displays(display, Point(2 * p.x, p.y).Plus(Offset()), io.Seen(p))
        {
          ColumnOfCell(p);
        }
      }
      if ShowsBoard() {
        forall q | IsColumn(lastFrame.size, q)
          ensures Displays(display, q.Plus(Offset()), lastFrame.Get(q))
        {
          CellOfColumn(q);
        }
      }
    }

    lemma BareBelowMeansNothingBelow(status: seq<nat>)
      requires FrameIsBoard() && IsBareBelow(lastFrame, terminalSize, status)
      ensures NothingBelow(status)
    {
      assert lastFrame.size.y == io.state.board.tiles.size.y;
      hide IsBare, Matrix.Get, IO.Seen, CornerOf, FrameIsBoard, IsColumn, InBounds;
      forall p: Point | InBounds(io.state.board.tiles.size, p) && p.y == io.state.board.tiles.size.y - 1
        ensures IsBare(io.Seen(p), status, terminalSize.x, 2 * p.x + Offset().x)
      {
        ColumnOfCell(p);
      }
    }

    lemma NothingBelowMeansBareBelow(status: seq<nat>)
      requires FrameIsBoard() && NothingBelow(status)
      ensures IsBareBelow(lastFrame, terminalSize, status)
    {
      assert lastFrame.size.y == io.state.board.tiles.size.y;
      hide IsBare, Matrix.Get, IO.Seen, CornerOf, FrameIsBoard, IsColumn, InBounds, NothingBelow;
      forall q | IsColumn(lastFrame.size, q) && q.y == lastFrame.size.y - 1
        ensures IsBare(lastFrame.Get(q), status, terminalSize.x, q.x + Offset().x)
      {
        BareAtColumn(q, status);
      }
    }

    lemma BareAtColumn(q: Point, status: seq<nat>)
      requires FrameIsBoard() && NothingBelow(status)
      requires IsColumn(lastFrame.size, q) && q.y == io.state.board.tiles.size.y - 1
      ensures IsBare(lastFrame.Get(q), status, terminalSize.x, q.x + Offset().x)
    {
      hide IsBare, Matrix.Get, IO.Seen, CornerOf, FrameIsBoard, IsColumn, InBounds;
      CellOfColumn(q);
      var p := Point(q.x / 2, q.y);
      assert IsBare(io.Seen(p), status, terminalSize.x, 2 * p.x + Offset().x);
    }

    /**
     * Reads the keys, runs the game and redraws: the screen then shows exactly what the player sees, if and only
     * if it is large enough, or there is nothing to see where the status line covers the last row.
     */
    method Tick(bytes: seq<Keys.Byte>, status: seq<nat>)
      requires Ready()
      modifies this`lastFrame, this`display
      modifies io`frame, io`inputs, io.state`input, io.state`rounds
      modifies io.state.board`entityIndex, io.state.board`entityAtPos, io.state.board`vision, io.state.board.fov`cache
      modifies io.state.board.vision.Values
      modifies io.state.board.entities`pos, io.state.board.entities`moveTimer, io.state.board.entities`turnTimer
      modifies io.state.board.entities`turns, io.state.board.entities`advances
      ensures Ready() && lastFrame.size == old(lastFrame.size)
      ensures fresh(io.state.board.vision.Values - old(io.state.board.vision.Values))
      ensures forall p: Point :: lastFrame.Get(p) == io.frame.Get(p)
      ensures ShowsBoard() <==>
              || IsLargeEnough(terminalSize, lastFrame.size)
              || (lastFrame.size.x <= terminalSize.x && lastFrame.size.y == terminalSize.y && NothingBelow(status))
    {
      hide IO.Ready, IO.Seen, Matrix.Get, Synced, Displays, State.Valid, Moment.UpdatesTo, AfterMove;
      hide ShowsBoard, NothingBelow, ShowsFrame, IsBareBelow, ShowsStatus, IsLargeEnough;
      io.inputs := Keys.GetKeyInputs(bytes, io.inputs);
      io.Tick();
      io.frame.GetOutside();
      lastFrame.GetOutside();
      Redraw(status);
      io.SeenIsWide();
      io.FrameFitsBoard();
      BoardIsShownIff(status);
    }

    lemma BoardIsShownIff(status: seq<nat>)
      requires FrameIsBoard() && display.size == terminalSize && Synced(display, Offset(), lastFrame)
      requires lastFrame.size.x >= 2 && lastFrame.size.x % 2 == 0 && lastFrame.size.y >= 1
      requires terminalSize.x >= 0 && terminalSize.y >= 1 ==> ShowsStatus(display, status)
      requires forall p :: io.Seen(p).ch >= WIDE_SPACE
      ensures ShowsBoard() <==>
              || IsLargeEnough(terminalSize, lastFrame.size)
              || (lastFrame.size.x <= terminalSize.x && lastFrame.size.y == terminalSize.y && NothingBelow(status))
    {
      hide IO.Seen, Matrix.Get, Synced, Displays, ShowsBoard, NothingBelow, ShowsFrame, IsBareBelow, ShowsStatus;
      ShowsBoardIsShowsFrame();
      if NothingBelow(status) { NothingBelowMeansBareBelow(status); }
      if IsBareBelow(lastFrame, terminalSize, status) { BareBelowMeansNothingBelow(status); }
      if lastFrame.size.x > terminalSize.x || lastFrame.size.y > terminalSize.y {
        TooSmallHidesACorner(display, lastFrame);
      } else {
        ShowsFrameIff(display, lastFrame, status);
      }
    }
  }

  /**
   * The whole program: a game, its terminal, and a tick for each batch of bytes that arrives. After every tick
   * everything holds that one tick promises.
   */
  method Play(size: Point, radius: nat, sight: nat, attempts: seq<(Rolls, Rolls)>, terminalSize: Point,
              batches: seq<(seq<Keys.Byte>, seq<nat>)>) returns (terminal: Terminal)
    requires size.x >= 0 && size.y >= 0 && sight >= 1
    requires exists k :: 0 <= k < |attempts| && LeavesCentreFree(size, attempts[k])
    ensures fresh(terminal) && terminal.Ready() && terminal.terminalSize == terminalSize
    ensures terminal.io.state.board.tiles.size == size && terminal.lastFrame.size == Point(2 * size.x, size.y)
    ensures batches != [] ==>
              (terminal.ShowsBoard() <==>
               || IsLargeEnough(terminalSize, terminal.lastFrame.size)
               || (2 * size.x <= terminalSize.x && size.y == terminalSize.y &&
                   terminal.NothingBelow(batches[|batches| - 1].1)))
  {
    hide LeavesCentreFree, IO.Ready, State.Valid, Terminal.Ready, Terminal.ShowsBoard, Terminal.NothingBelow, AllWide;
    var state := new State(size, radius, sight, attempts);
    var io := MakeIO(state);
    terminal := new Terminal(io, terminalSize);
    ghost var board := state.board;
    for k := 0 to |batches|
      invariant fresh(terminal) && fresh(io) && fresh(state) && fresh(board) && fresh(board.fov)
      invariant terminal.io == io && io.state == state && state.board == board && terminal.terminalSize == terminalSize
      invariant fresh(board.vision.Values) && fresh(set e | e in board.entities)
      invariant terminal.Ready() && board.tiles.size == size && terminal.lastFrame.size == Point(2 * size.x, size.y)
      invariant k > 0 ==>
                  (terminal.ShowsBoard() <==>
                   || IsLargeEnough(terminalSize, terminal.lastFrame.size)
                   || (2 * size.x <= terminalSize.x && size.y == terminalSize.y &&
                       terminal.NothingBelow(batches[k - 1].1)))
    {
      terminal.Tick(batches[k].0, batches[k].1);
    }
  }

  method MakeIO(state: State) returns (io: IO)
    requires state.Valid() && AllWide(state.board)
    ensures fresh(io) && io.Ready() && io.state == state
    ensures io.frame.size == Point(2 * state.board.tiles.size.x, state.board.tiles.size.y)
    ensures forall p :: io.frame.Get(p) == Glyph(0, 0, 0)
  {
    hide State.Valid, AllWide, IO.Ready;
    io := new IO(state);
  }
}

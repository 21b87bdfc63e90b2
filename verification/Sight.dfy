/** What the recursion of Lighting promises: when two boards look alike, how far one sees, and where to. */
module Sight {
  import opened Geometry
  import opened LineOfSight
  import opened FovTrie
  import opened Lighting

  /** Every visited path lights its last cell, so that cell counts as seen. */
  lemma VisitedIsSeen(radius: nat, v: View, s: Path)
    requires v.sight >= 1 && Layered(radius, v.trie)
    requires s in v.trie && v.Visited(s)
    ensures v.Best(|s|, s[|s| - 1]) >= v.Light(s) >= 0
    ensures v.LightAt(s[|s| - 1]) == v.Best(|s|, s[|s| - 1])
  {
    var n, p := |s|, s[|s| - 1];
    PathDepth(radius, v.trie, s);
    LightIsNatural(v, s);
    hide Layered, View.Light, View.Visited;
    assert v.Light(s) in v.Arrivals(n, p);
  }

  lemma SeenIsVisited(v: View, p: Point) returns (s: Path)
    requires v.Sees(p)
    ensures s in v.trie && |s| == p.LenWalking() + 1 && s[|s| - 1] == p && v.Visited(s) && v.Light(s) == v.LightAt(p)
  {
    var n := p.LenWalking() + 1;
    assert v.LightAt(p) in v.Arrivals(n, p);
    s :| s in v.trie && |s| == n && s[n - 1] == p && v.Visited(s) && v.Light(s) == v.LightAt(p);
  }

  // ----- non-interference -----

  /** The boards agree on every cell that the first viewer sees. */
  ghost predicate AgreeOnSeen(v: View, w: View) {
    && v.sight == w.sight && v.trie == w.trie && v.pos == w.pos
    && forall p: Point :: v.Sees(p) ==> v.FlagsAt(p) == w.FlagsAt(p)
  }

  lemma {:induction false} SameLight(radius: nat, v: View, w: View, s: Path)
    requires v.sight >= 1 && Layered(radius, v.trie) && AgreeOnSeen(v, w)
    requires s in v.trie
    ensures v.Visited(s) == w.Visited(s)
    ensures v.Visited(s) ==> v.Light(s) == w.Light(s)
    decreases |s|, 0
  {
    if |s| > 1 {
      SameLight(radius, v, w, Up(s));
      if v.Visited(s) {
        VisitedIsSeen(radius, v, s);
        SameBest(radius, v, w, |s| - 1, s[|s| - 2]);
      }
    }
  }

  lemma {:induction false} SameBest(radius: nat, v: View, w: View, n: nat, p: Point)
    requires v.sight >= 1 && Layered(radius, v.trie) && AgreeOnSeen(v, w)
    ensures v.Best(n, p) == w.Best(n, p)
    decreases n, 1
  {
    forall s | s in v.trie && |s| == n
      ensures v.Visited(s) == w.Visited(s)
      ensures v.Visited(s) ==> v.Light(s) == w.Light(s)
    {
      SameLight(radius, v, w, s);
    }
    assert v.Arrivals(n, p) == w.Arrivals(n, p);
  }

  /** Changing cells that the viewer does not see changes nothing of what the viewer sees. */
  lemma UnseenCellsDoNotMatter(radius: nat, v: View, w: View)
    requires v.sight >= 1 && Layered(radius, v.trie) && AgreeOnSeen(v, w)
    ensures forall p :: v.LightAt(p) == w.LightAt(p)
  {
    forall p: Point
      ensures v.LightAt(p) == w.LightAt(p)
    {
      SameBest(radius, v, w, p.LenWalking() + 1, p);
    }
  }

  /** Writing a tile that the viewer does not see, or one with the flags it had, leaves the light as it was. */
  lemma UnseenTileChange(radius: nat, v: View, at: Point, tile: Tile)
    requires v.sight >= 1 && Layered(radius, v.trie)
    requires v.tiles.Contains(at) && v.tiles.Get(at).flags != tile.flags ==> !v.Sees(at.Minus(v.pos))
    ensures forall p :: v.(tiles := v.tiles.Set(at, tile)).LightAt(p) == v.LightAt(p)
  {
    var w := v.(tiles := v.tiles.Set(at, tile));
    v.tiles.GetAfterSet(at, tile);
    forall p: Point | v.Sees(p)
      ensures v.FlagsAt(p) == w.FlagsAt(p)
    {
      assert p.Plus(v.pos).Minus(v.pos) == p;
    }
    UnseenCellsDoNotMatter(radius, v, w);
  }

  // ----- tall grass -----

  lemma DiagonalStepWidens(radius: nat, end: Point, i: nat)
    requires OnPerimeter(radius, end) && i < radius
    ensures var q, p := Cell(ORIGIN, end, i), Cell(ORIGIN, end, i + 1);
      p.MinorSide() == q.MinorSide() + if p.x != q.x && p.y != q.y then 1 else 0
  {
    hide MinorSteps;
    MinorStepsBounded(radius, end.MinorSide(), i);
    MinorStepsBounded(radius, end.MinorSide(), i + 1);
    MinorStepsAdvance(radius, end.MinorSide(), i);
  }

  lemma DiagonalStepInTrie(radius: nat, trie: set<Path>, s: Path)
    requires IsTrie(radius, trie) && s in trie && |s| > 1
    ensures var q, p := s[|s| - 2], s[|s| - 1];
      p.MinorSide() == q.MinorSide() + if p.x != q.x && p.y != q.y then 1 else 0
  {
    var end :| OnPerimeter(radius, end) && Admitted(radius, Line(ORIGIN, end), s);
    assert s[|s| - 2] == Line(ORIGIN, end)[|s| - 2] == Cell(ORIGIN, end, |s| - 2);
    assert s[|s| - 1] == Line(ORIGIN, end)[|s| - 1] == Cell(ORIGIN, end, |s| - 1);
    DiagonalStepWidens(radius, end, |s| - 2);
  }

  /** Within n king's moves of the viewer, whatever is not blocked is tall grass. */
  ghost predicate GrassOrBlocked(v: View, n: nat) {
    forall p: Point | 0 < p.LenWalking() <= n :: v.FlagsAt(p).blocked || v.FlagsAt(p).obscure
  }

  function GrassLight(v: View, p: Point): int {
    Budget(v.sight) - 95 * p.LenWalking() - 46 * p.MinorSide()
  }

  /** The last two cells of a path lie as far out as it is long. */
  lemma PathDepth(radius: nat, trie: set<Path>, s: Path)
    requires Layered(radius, trie) && s in trie
    ensures s != [] && s[|s| - 1].LenWalking() == |s| - 1
    ensures |s| > 1 ==> Up(s) in trie && Up(s)[|Up(s)| - 1] == s[|s| - 2] && s[|s| - 2].LenWalking() == |s| - 2
  {}

  lemma LightInGrass(v: View, s: Path)
    requires |s| > 1
    requires v.FlagsAt(s[|s| - 1]).blocked || v.FlagsAt(s[|s| - 1]).obscure
    ensures var q, p := s[|s| - 2], s[|s| - 1];
      v.Light(s) <= Max(0, v.Best(|s| - 1, q) - 95 - if p.x != q.x && p.y != q.y then 46 else 0)
  {
    hide View.Best, View.FlagsAt;
  }

  lemma BestIsBounded(v: View, n: nat, p: Point, bound: nat)
    requires forall t | t in v.trie && |t| == n && n > 0 && t[n - 1] == p :: v.Light(t) <= bound
    ensures v.Best(n, p) <= bound
  {
    hide View.Light, View.Visited;
    assert v.Best(n, p) == -1 || v.Best(n, p) in v.Arrivals(n, p);
  }

  /** What one more step through tall grass costs. */
  lemma GrassFurtherOut(radius: nat, v: View, s: Path)
    requires IsTrie(radius, v.trie) && Layered(radius, v.trie) && s in v.trie && |s| > 1
    ensures var q, p := s[|s| - 2], s[|s| - 1];
      GrassLight(v, p) == GrassLight(v, q) - 95 - if p.x != q.x && p.y != q.y then 46 else 0
  {
    hide IsTrie, Layered;
    PathDepth(radius, v.trie, s);
    DiagonalStepInTrie(radius, v.trie, s);
  }

  lemma LightFades(radius: nat, v: View, s: Path)
    requires IsTrie(radius, v.trie) && Layered(radius, v.trie) && s in v.trie && |s| > 1 && GrassOrBlocked(v, |s| - 1)
    requires v.Best(|s| - 1, s[|s| - 2]) <= Max(0, GrassLight(v, s[|s| - 2]))
    ensures v.Light(s) <= Max(0, GrassLight(v, s[|s| - 1]))
  {
    PathDepth(radius, v.trie, s);
    assert v.FlagsAt(s[|s| - 1]).blocked || v.FlagsAt(s[|s| - 1]).obscure;
    hide IsTrie, Layered, GrassOrBlocked, GrassLight, View.FlagsAt, View.Light, View.Best;
    LightInGrass(v, s);
    GrassFurtherOut(radius, v, s);
  }

  lemma {:induction false} GrassDims(radius: nat, v: View, s: Path)
    requires IsTrie(radius, v.trie) && Layered(radius, v.trie) && v.sight >= 1
    requires s in v.trie && s != [] && GrassOrBlocked(v, |s| - 1)
    ensures v.Light(s) <= Max(0, GrassLight(v, s[|s| - 1]))
    decreases |s|
  {
    var n := |s|;
    assert n > 1 ==> GrassOrBlocked(v, n - 2);
    hide IsTrie, Layered, GrassOrBlocked, View.Best, View.Light, GrassLight;
    if n == 1 {
      GrassAtOrigin(radius, v, s);
    } else {
      var bound := Max(0, GrassLight(v, s[n - 2]));
      forall t | t in v.trie && |t| == n - 1 && t[n - 2] == s[n - 2]
        ensures v.Light(t) <= bound
      {
        GrassDims(radius, v, t);
      }
      BestIsBounded(v, n - 1, s[n - 2], bound);
      LightFades(radius, v, s);
    }
  }

  lemma SeenWithLight(radius: nat, v: View, p: Point) returns (s: Path)
    requires Layered(radius, v.trie) && v.Sees(p)
    ensures s in v.trie && |s| == p.LenWalking() + 1 && s[|s| - 1] == p
    ensures |s| > 1 ==> Up(s) in v.trie && v.Light(Up(s)) > 0
  {
    s := SeenIsVisited(v, p);
    PathDepth(radius, v.trie, s);
    hide Layered, View.Light, View.Sees, Point.LenWalking;
  }

  lemma GrassBefore(radius: nat, v: View, s: Path)
    requires IsTrie(radius, v.trie) && Layered(radius, v.trie) && v.sight >= 1
    requires s in v.trie && |s| > 1 && GrassOrBlocked(v, |s| - 1) && v.Light(Up(s)) > 0
    ensures GrassLight(v, s[|s| - 2]) > 0
  {
    PathDepth(radius, v.trie, s);
    assert GrassOrBlocked(v, |s| - 2);
    hide IsTrie, Layered, GrassOrBlocked, GrassLight, View.Light;
    GrassDims(radius, v, Up(s));
  }

  /** In a field of tall grass nothing further than the vision radius is seen. */
  lemma TallGrassBound(radius: nat, v: View, p: Point)
    requires IsTrie(radius, v.trie) && v.sight >= 1 && GrassOrBlocked(v, p.LenWalking())
    requires v.Sees(p)
    ensures p.LenNethack() <= v.sight
  {
    hide IsTrie, Layered, GrassOrBlocked, View.Light, View.Sees;
    TrieIsLayered(radius, v.trie);
    var s := SeenWithLight(radius, v, p);
    if |s| > 1 {
      GrassBefore(radius, v, s);
      GrassFurtherOut(radius, v, s);
    }
  }

  /** Within n king's moves there is nothing but open tall grass. */
  ghost predicate GrassAround(v: View, n: nat) {
    forall p: Point | 0 < p.LenWalking() <= n :: v.FlagsAt(p) == Flags(false, true)
  }

  lemma GrassStep(radius: nat, v: View, s: Path)
    requires IsTrie(radius, v.trie) && Layered(radius, v.trie)
    requires s in v.trie && |s| > 1 && GrassAround(v, |s| - 1)
    ensures Up(s) in v.trie && Up(s) != [] && Up(s)[|Up(s)| - 1] == s[|s| - 2]
    ensures var q, p := s[|s| - 2], s[|s| - 1];
      && GrassLight(v, p) == GrassLight(v, q) - Loss(v.FlagsAt(p), p, q) < GrassLight(v, q)
      && !v.FlagsAt(p).blocked
  {
    hide IsTrie, Layered, View.FlagsAt, GrassLight;
    PathDepth(radius, v.trie, s);
    GrassFurtherOut(radius, v, s);
  }

  lemma SameLightIsBest(v: View, u: Path, light: int)
    requires u in v.trie && u != [] && v.Visited(u)
    requires forall t | t in v.trie && |t| == |u| && t[|t| - 1] == u[|u| - 1] && v.Visited(t) :: v.Light(t) == light
    ensures v.Best(|u|, u[|u| - 1]) == light
  {
    hide View.Light, View.Visited;
    assert v.Light(u) in v.Arrivals(|u|, u[|u| - 1]);
    assert v.Best(|u|, u[|u| - 1]) in v.Arrivals(|u|, u[|u| - 1]);
  }

  lemma VisitedFromTheRoot(v: View, s: Path)
    requires s != []
    ensures |s| == 1 ==> v.Visited(s)
    ensures |s| > 1 && v.Visited(s) ==> v.Visited(Up(s))
  {}

  lemma GrassNearer(v: View, n: nat)
    requires GrassAround(v, n)
    ensures n > 0 ==> GrassAround(v, n - 1)
  {}

  /** One more step, when the light at the cell before the end is known. */
  lemma ExactStep(radius: nat, v: View, s: Path)
    requires IsTrie(radius, v.trie) && Layered(radius, v.trie)
    requires s in v.trie && |s| > 1 && GrassAround(v, |s| - 1)
    requires v.Visited(Up(s)) <==> |s| == 2 || GrassLight(v, s[|s| - 3]) > 0
    requires v.Visited(Up(s)) ==> v.Light(Up(s)) == Max(0, GrassLight(v, s[|s| - 2]))
    requires v.Visited(s) ==> v.Best(|s| - 1, s[|s| - 2]) == Max(0, GrassLight(v, s[|s| - 2]))
    ensures v.Visited(s) <==> GrassLight(v, s[|s| - 2]) > 0
    ensures v.Visited(s) ==> v.Light(s) == Max(0, GrassLight(v, s[|s| - 1]))
  {
    GrassStep(radius, v, s);
    if |s| > 2 {
      assert GrassAround(v, |s| - 2);
      GrassStep(radius, v, Up(s));
    }
    hide IsTrie, Layered, GrassAround, GrassLight, View.Best, Loss, View.FlagsAt;
  }

  /** A path through open tall grass is visited as long as the cell before its end has light to give. */
  lemma {:induction false} GrassLightIsExact(radius: nat, v: View, s: Path)
    requires IsTrie(radius, v.trie) && Layered(radius, v.trie) && v.sight >= 1
    requires s in v.trie && s != [] && GrassAround(v, |s| - 1)
    ensures v.Visited(s) <==> |s| == 1 || GrassLight(v, s[|s| - 2]) > 0
    ensures v.Visited(s) ==> v.Light(s) == Max(0, GrassLight(v, s[|s| - 1]))
    decreases |s|, 0
  {
    hide IsTrie, Layered, GrassLight, GrassAround, View.Best, View.Light, View.Visited;
    var n := |s|;
    PathDepth(radius, v.trie, s);
    VisitedFromTheRoot(v, s);
    GrassNearer(v, n - 1);
    if n == 1 {
      GrassAtOrigin(radius, v, s);
    } else {
      GrassLightIsExact(radius, v, Up(s));
      if v.Visited(s) {
        BestInGrass(radius, v, Up(s));
      }
      ExactStep(radius, v, s);
    }
  }

  lemma {:induction false} BestInGrass(radius: nat, v: View, u: Path)
    requires IsTrie(radius, v.trie) && Layered(radius, v.trie) && v.sight >= 1
    requires u in v.trie && u != [] && GrassAround(v, |u| - 1) && v.Visited(u)
    ensures v.Best(|u|, u[|u| - 1]) == Max(0, GrassLight(v, u[|u| - 1]))
    decreases |u|, 1
  {
    hide IsTrie, Layered, GrassLight, GrassAround, View.Best, View.Light, View.Visited;
    var light := Max(0, GrassLight(v, u[|u| - 1]));
    forall t | t in v.trie && |t| == |u| && t[|t| - 1] == u[|u| - 1] && v.Visited(t)
      ensures v.Light(t) == light
    {
      GrassLightIsExact(radius, v, t);
    }
    SameLightIsBest(v, u, light);
  }

  lemma GrassAtOrigin(radius: nat, v: View, s: Path)
    requires Layered(radius, v.trie) && v.sight >= 1 && s in v.trie && |s| == 1
    ensures v.Light(s) == GrassLight(v, s[0]) > 0
  {
    assert s[0].LenWalking() == 0;
  }

  /** The last step of a path changes both coordinates. */
  predicate EndsDiagonally(s: Path) {
    |s| > 1 && s[|s| - 2].x != s[|s| - 1].x && s[|s| - 2].y != s[|s| - 1].y
  }

  ghost predicate EndsAt(trie: set<Path>, s: Path, p: Point) {
    s in trie && s != [] && s[|s| - 1] == p
  }

  /** The distance up to which open tall grass lets one see, along a line that ends in this way. */
  predicate WithinGrass(sight: nat, p: Point, diagonally: bool) {
    95 * p.LenWalking() + 46 * p.MinorSide() < 100 * (sight + 1) - if diagonally then 25 else 71
  }

  lemma GrassPathVisited(radius: nat, v: View, s: Path)
    requires IsTrie(radius, v.trie) && Layered(radius, v.trie) && v.sight >= 1
    requires s in v.trie && |s| > 1 && GrassAround(v, |s| - 1)
    ensures v.Visited(s) <==> WithinGrass(v.sight, s[|s| - 1], EndsDiagonally(s))
  {
    hide IsTrie, Layered, GrassAround, View.Visited;
    GrassLightIsExact(radius, v, s);
    GrassFurtherOut(radius, v, s);
  }

  lemma SeenThroughGrass(radius: nat, v: View, p: Point)
    requires IsTrie(radius, v.trie) && Layered(radius, v.trie) && v.sight >= 1
    requires GrassAround(v, p.LenWalking()) && p != ORIGIN && v.Sees(p)
    ensures exists s :: EndsAt(v.trie, s, p) && WithinGrass(v.sight, p, EndsDiagonally(s))
  {
    var s := SeenIsVisited(v, p);
    hide IsTrie, Layered, GrassAround, View.Visited, View.Light, View.LightAt, WithinGrass;
    GrassPathVisited(radius, v, s);
    assert EndsAt(v.trie, s, p);
  }

  lemma GrassSeenThrough(radius: nat, v: View, p: Point, s: Path)
    requires IsTrie(radius, v.trie) && Layered(radius, v.trie) && v.sight >= 1
    requires GrassAround(v, p.LenWalking()) && p != ORIGIN
    requires EndsAt(v.trie, s, p) && WithinGrass(v.sight, p, EndsDiagonally(s))
    ensures v.Sees(p)
  {
    PathDepth(radius, v.trie, s);
    hide IsTrie, Layered, GrassAround, View.Visited, View.Light, View.LightAt, WithinGrass;
    GrassPathVisited(radius, v, s);
    VisitedIsSeen(radius, v, s);
  }

  // ----- coverage -----

  /** Some line to the perimeter passes i steps out at row k: the rows rise by at most one per end point. */
  lemma {:induction false} SomeLinePasses(radius: nat, i: nat, k: nat, minor: nat) returns (m: nat)
    requires 0 < i <= radius && minor <= radius && k <= MinorSteps(radius, minor, i)
    ensures m <= minor && MinorSteps(radius, m, i) == k
    decreases minor
  {
    hide MinorSteps;
    m := minor;
    if k < MinorSteps(radius, minor, i) {
      FlatLine(radius, i);
      StepsCommute(radius, minor, i);
      StepsCommute(radius, minor - 1, i);
      MinorStepsAdvance(radius, i, minor - 1);
      m := SomeLinePasses(radius, i, k, minor - 1);
    }
  }

  lemma StepsCommute(major: nat, minor: nat, i: nat)
    ensures MinorSteps(major, minor, i) == MinorSteps(major, i, minor)
  {
    assert minor * i == i * minor;
  }

  lemma SquareMonotone(a: nat, b: nat)
    requires a <= b
    ensures a * a <= b * b
  {
    assert a * a <= a * b <= b * b;
  }

  lemma SquareOfAbs(n: int)
    ensures n * n == Abs(n) * Abs(n)
  {}

  lemma LenL2OfSides(p: Point)
    ensures p.LenL2Squared() == p.LenWalking() * p.LenWalking() + p.MinorSide() * p.MinorSide()
  {
    SquareOfAbs(p.x);
    SquareOfAbs(p.y);
  }

  lemma WithinRadius(radius: nat, p: Point)
    requires radius >= 1 && 4 * p.LenL2Squared() <= (2 * radius - 1) * (2 * radius - 1)
    ensures p.LenWalking() < radius
  {
    var i := p.LenWalking();
    LenL2OfSides(p);
    assert p.MinorSide() * p.MinorSide() >= 0;
    assert (2 * radius - 1) * (2 * radius - 1) == 4 * (radius * radius) - 4 * radius + 1;
    if i >= radius {
      SquareMonotone(radius, i);
    }
  }

  lemma EndThrough(radius: nat, p: Point, m: nat) returns (end: Point)
    requires m <= radius && MinorSteps(radius, m, p.LenWalking()) == p.MinorSide()
    requires 0 < p.LenWalking() <= radius
    ensures OnPerimeter(radius, end) && end.MinorSide() == m && Cell(ORIGIN, end, p.LenWalking()) == p
  {
    hide MinorSteps;
    var major, minor: int := radius, m;
    DiagonalLine(radius, p.LenWalking());
    FlatLine(radius, p.LenWalking());
    if Abs(p.x) >= Abs(p.y) {
      end := Point(Toward(0, p.x, major), Toward(0, p.y, minor));
    } else {
      end := Point(Toward(0, p.x, minor), Toward(0, p.y, major));
    }
  }

  lemma {:induction false} MinorStepsMonotone(major: nat, minor: nat, j: nat, i: nat)
    requires minor <= major && j <= i
    ensures MinorSteps(major, minor, j) <= MinorSteps(major, minor, i)
    decreases i
  {
    hide MinorSteps;
    if j < i {
      MinorStepsMonotone(major, minor, j, i - 1);
      MinorStepsAdvance(major, minor, i - 1);
    }
  }

  lemma NearerCell(radius: nat, end: Point, j: nat, i: nat)
    requires OnPerimeter(radius, end) && j <= i <= radius
    ensures Cell(ORIGIN, end, j).LenL2Squared() <= Cell(ORIGIN, end, i).LenL2Squared()
  {
    hide MinorSteps, Cell;
    var q, p := Cell(ORIGIN, end, j), Cell(ORIGIN, end, i);
    LineIsLayered(radius, end, j);
    LineIsLayered(radius, end, i);
    MinorStepsMonotone(radius, end.MinorSide(), j, i);
    LenL2OfSides(q);
    LenL2OfSides(p);
    SquareMonotone(q.LenWalking(), p.LenWalking());
    SquareMonotone(q.MinorSide(), p.MinorSide());
  }

  /** Every cell within radius - 0.5 of the centre ends some path of the trie. */
  lemma TrieCovers(radius: nat, trie: set<Path>, p: Point) returns (s: Path)
    requires radius >= 1 && IsTrie(radius, trie)
    requires 4 * p.LenL2Squared() <= (2 * radius - 1) * (2 * radius - 1)
    ensures s in trie && |s| == p.LenWalking() + 1 && s[|s| - 1] == p
  {
    var i, k := p.LenWalking(), p.MinorSide();
    if i == 0 {
      RootIsInserted(radius);
      s := [ORIGIN];
    } else {
      WithinRadius(radius, p);
      DiagonalLine(radius, i);
      StepsCommute(radius, i, radius);
      var m := SomeLinePasses(radius, i, k, radius);
      var end := EndThrough(radius, p, m);
      s := Line(ORIGIN, end)[..i + 1];
      forall j | 0 <= j < i ensures !Beyond(radius, s[j]) {
        NearerCell(radius, end, j, i);
      }
      assert Admitted(radius, Line(ORIGIN, end), s);
    }
  }

  // ----- which lines lead to a cell -----

  /** Twice the height at which row m begins, in units of which radius make a row. */
  function RowStart(radius: nat, m: int): int {
    radius * (2 * m - 1)
  }

  /**
   * The end of a line that comes to the cell, the last step being diagonal or not: the lowest row on the
   * perimeter from which a line could come in diagonally, or the highest from which one could come straight.
   */
  function EndRow(radius: nat, p: Point, diagonally: bool): int
    requires p != ORIGIN
  {
    var w, m := p.LenWalking(), p.MinorSide();
    if diagonally then RowStart(radius, m) / (2 * w) + 1 else Min(radius, RowStart(radius, m + 1) / (2 * w))
  }

  /** The line to that row passes the cell in this way, and the cell before it lies within radius - 0.5. */
  predicate IsEntered(radius: nat, p: Point, diagonally: bool)
    requires p != ORIGIN
  {
    && p.LenWalking() <= radius
    && RowFits(radius, p, diagonally)
    && 4 * CellBefore(p, diagonally).LenL2Squared() <= (2 * radius - 1) * (2 * radius - 1)
  }

  predicate RowFits(radius: nat, p: Point, diagonally: bool)
    requires p != ORIGIN
  {
    var before := (p.LenWalking() - 1) * EndRow(radius, p, diagonally);
    if diagonally then p.MinorSide() > 0 && 2 * before <= RowStart(radius, p.MinorSide())
    else 2 * before > RowStart(radius, p.MinorSide())
  }

  /** How far out the cell before lies, along both sides. */
  function CellBefore(p: Point, diagonally: bool): Point {
    Point(p.LenWalking() - 1, p.MinorSide() - if diagonally then 1 else 0)
  }

  /** A line to row k of the perimeter passes row m after w steps, and the row before it one step earlier. */
  predicate PassesRows(radius: nat, w: nat, m: int, k: nat, diagonally: bool)
    requires w > 0
  {
    MinorSteps(radius, k, w) == m && MinorSteps(radius, k, w - 1) == m - if diagonally then 1 else 0
  }

  lemma RowIs(radius: nat, k: nat, i: nat, row: int)
    requires radius > 0
    ensures MinorSteps(radius, k, i) == row <==> RowStart(radius, row) < 2 * (i * k) <= RowStart(radius, row + 1)
  {
    hide MinorSteps;
    NearestIffMinorSteps(radius, k, i, row);
    assert RowStart(radius, row) == 2 * (row * radius) - radius;
    RowStarts(radius, row);
  }

  lemma PassesRowsIff(radius: nat, w: nat, m: nat, k: nat, diagonally: bool)
    requires 0 < w <= radius && k <= radius
    ensures PassesRows(radius, w, m, k, diagonally) <==>
            && RowStart(radius, m) < 2 * (w * k) <= RowStart(radius, m + 1)
            && (diagonally <==> 2 * ((w - 1) * k) <= RowStart(radius, m))
  {
    hide MinorSteps, RowStart;
    RowIs(radius, k, w, m);
    RowStarts(radius, m);
    assert (w - 1) * k == w * k - k;
    if diagonally {
      RowIs(radius, k, w - 1, m - 1);
      RowStarts(radius, m - 1);
    } else {
      RowIs(radius, k, w - 1, m);
    }
  }

  lemma RowStartBounds(radius: nat, w: nat, m: nat)
    requires m <= w
    ensures 0 - radius <= RowStart(radius, m) <= 2 * (w * radius) - radius && (m > 0 ==> RowStart(radius, m) >= 0)
  {
    assert RowStart(radius, m) == 2 * (m * radius) - radius;
    MulMonotone(Min(1, m), m, radius);
    MulMonotone(m, w, radius);
  }

  lemma RowStarts(radius: nat, m: int)
    ensures RowStart(radius, m + 1) == RowStart(radius, m) + 2 * radius && RowStart(radius, 0) == 0 - radius
  {}

  lemma MulMonotone(a: nat, b: nat, m: nat)
    requires a <= b
    ensures a * m <= b * m && m * a <= m * b
  {}

  lemma QuotientBounds(n: nat, w: nat, k: nat)
    requires w > 0
    ensures k > n / (2 * w) <==> 2 * (w * k) > n
  {
    var q := n / (2 * w);
    assert n == (2 * w) * q + n % (2 * w);
    assert n == 2 * (w * q) + n % (2 * w);
    if k > q {
      MulMonotone(q + 1, k, w);
      assert w * (q + 1) == w * q + w;
    } else {
      MulMonotone(k, q, w);
    }
  }

  /** If any line passes in this way, the one to EndRow does. */
  lemma EndRowFits(radius: nat, p: Point, k: nat, diagonally: bool)
    requires p != ORIGIN && p.LenWalking() <= radius && k <= radius
    requires PassesRows(radius, p.LenWalking(), p.MinorSide(), k, diagonally)
    ensures RowFits(radius, p, diagonally)
  {
    var w, m := p.LenWalking(), p.MinorSide();
    assert w > 0;
    hide PassesRows, RowStart, Point.MinorSide, Point.LenWalking;
    PassesRowsIff(radius, w, m, k, diagonally);
    RowStarts(radius, m);
    NotNegative(w - 1, k);
    if diagonally {
      LowestFits(RowStart(radius, m), w, k);
    } else {
      HighestFits(radius, RowStart(radius, m + 1), w, k);
    }
  }

  lemma NotNegative(a: nat, b: nat)
    ensures a * b >= 0
  {}

  lemma LowestFits(n: nat, w: nat, k: nat)
    requires w > 0 && n < 2 * (w * k) && 2 * ((w - 1) * k) <= n
    ensures var e := n / (2 * w) + 1; 2 * ((w - 1) * e) <= n
  {
    QuotientBounds(n, w, k);
    MulMonotone(n / (2 * w) + 1, k, w - 1);
  }

  lemma HighestFits(radius: nat, n: nat, w: nat, k: nat)
    requires w > 0 && k <= radius && 2 * (w * k) <= n
    ensures (w - 1) * k <= (w - 1) * Min(radius, n / (2 * w))
  {
    QuotientBounds(n, w, k);
    MulMonotone(k, Min(radius, n / (2 * w)), w - 1);
  }

  lemma RowThatFits(radius: nat, p: Point, diagonally: bool)
    requires p != ORIGIN && p.LenWalking() <= radius && RowFits(radius, p, diagonally)
    ensures 0 <= EndRow(radius, p, diagonally) <= radius
    ensures PassesRows(radius, p.LenWalking(), p.MinorSide(), EndRow(radius, p, diagonally), diagonally)
  {
    EndRowBounds(radius, p, diagonally);
    hide PassesRows, RowStart, RowFits, EndRow, Point.MinorSide, Point.LenWalking;
    PassesRowsIff(radius, p.LenWalking(), p.MinorSide(), EndRow(radius, p, diagonally), diagonally);
  }

  lemma EndRowBounds(radius: nat, p: Point, diagonally: bool)
    requires p != ORIGIN && p.LenWalking() <= radius && RowFits(radius, p, diagonally)
    ensures var w, m, k := p.LenWalking(), p.MinorSide(), EndRow(radius, p, diagonally);
      && 0 < w && 0 <= k <= radius
      && RowStart(radius, m) < 2 * (w * k) <= RowStart(radius, m + 1)
      && (diagonally <==> 2 * ((w - 1) * k) <= RowStart(radius, m))
  {
    var w, m := p.LenWalking(), p.MinorSide();
    assert w > 0 && m <= w;
    hide RowStart, Point.MinorSide, Point.LenWalking;
    RowStarts(radius, m);
    RowStartBounds(radius, w, m);
    if diagonally {
      LowestPasses(radius, RowStart(radius, m), w);
    } else {
      HighestPasses(radius, RowStart(radius, m), w);
    }
  }

  lemma LowestPasses(radius: nat, n: nat, w: nat)
    requires w > 0 && n <= 2 * (w * radius) - radius && radius > 0
    ensures var e := n / (2 * w) + 1;
            e <= radius && n < 2 * (w * e) && (2 * ((w - 1) * e) <= n ==> 2 * (w * e) <= n + 2 * radius)
  {
    var e := n / (2 * w) + 1;
    QuotientBounds(n, w, e);
    QuotientBounds(n, w, radius);
    assert (w - 1) * e == w * e - e;
  }

  lemma HighestPasses(radius: nat, n: int, w: nat)
    requires w > 0 && n + 2 * radius >= 0
    ensures var e := Min(radius, (n + 2 * radius) / (2 * w));
            0 <= e <= radius && (n < 2 * ((w - 1) * e) ==> n < 2 * (w * e)) && 2 * (w * e) <= n + 2 * radius
  {
    var above: nat := n + 2 * radius;
    var q: nat := above / (2 * w);
    var e: nat := Min(radius, q);
    QuotientBounds(above, w, q);
    MulMonotone(e, q, w);
    MulMonotone(w - 1, w, e);
  }

  // ----- the paths that end at a cell -----

  lemma PathToEntered(radius: nat, trie: set<Path>, p: Point, diagonally: bool) returns (s: Path)
    requires IsTrie(radius, trie) && p != ORIGIN && IsEntered(radius, p, diagonally)
    ensures EndsAt(trie, s, p) && EndsDiagonally(s) == diagonally
  {
    hide PassesRows, RowFits, EndRow;
    var w := p.LenWalking();
    RowThatFits(radius, p, diagonally);
    var end := EndAtRow(radius, p, EndRow(radius, p, diagonally), diagonally);
    s := Line(ORIGIN, end)[..w + 1];
    EndsAsItPasses(radius, end, p, diagonally);
    CellsBeforeWithin(radius, end, p, diagonally);
    assert Admitted(radius, Line(ORIGIN, end), s);
  }

  lemma EndAtRow(radius: nat, p: Point, k: nat, diagonally: bool) returns (end: Point)
    requires p != ORIGIN && p.LenWalking() <= radius && k <= radius
    requires PassesRows(radius, p.LenWalking(), p.MinorSide(), k, diagonally)
    ensures OnPerimeter(radius, end) && end.MinorSide() == k && Cell(ORIGIN, end, p.LenWalking()) == p
    ensures PassesRows(radius, p.LenWalking(), p.MinorSide(), end.MinorSide(), diagonally)
  {
    hide MinorSteps;
    end := EndThrough(radius, p, k);
  }

  lemma EndsAsItPasses(radius: nat, end: Point, p: Point, diagonally: bool)
    requires OnPerimeter(radius, end) && 0 < p.LenWalking() <= radius && Cell(ORIGIN, end, p.LenWalking()) == p
    ensures PassesRows(radius, p.LenWalking(), p.MinorSide(), end.MinorSide(), diagonally)
       <==> (var q := Cell(ORIGIN, end, p.LenWalking() - 1); q.x != p.x && q.y != p.y) == diagonally
    ensures PassesRows(radius, p.LenWalking(), p.MinorSide(), end.MinorSide(), diagonally) ==>
            Cell(ORIGIN, end, p.LenWalking() - 1).LenL2Squared() == CellBefore(p, diagonally).LenL2Squared()
  {
    hide MinorSteps, Cell;
    var w := p.LenWalking();
    LineIsLayered(radius, end, w);
    LineIsLayered(radius, end, w - 1);
    DiagonalStepWidens(radius, end, w - 1);
    LenL2OfSides(Cell(ORIGIN, end, w - 1));
  }

  lemma CellsBeforeWithin(radius: nat, end: Point, p: Point, diagonally: bool)
    requires OnPerimeter(radius, end) && 0 < p.LenWalking() <= radius && Cell(ORIGIN, end, p.LenWalking()) == p
    requires PassesRows(radius, p.LenWalking(), p.MinorSide(), end.MinorSide(), diagonally)
    requires !Beyond(radius, CellBefore(p, diagonally))
    ensures forall j | 0 <= j < p.LenWalking() :: !Beyond(radius, Line(ORIGIN, end)[j])
  {
    EndsAsItPasses(radius, end, p, diagonally);
    hide MinorSteps, Cell, PassesRows;
    forall j | 0 <= j < p.LenWalking()
      ensures !Beyond(radius, Line(ORIGIN, end)[j])
    {
      NearerCell(radius, end, j, p.LenWalking() - 1);
    }
  }

  /** A path comes to the cell in this way if and only if the sides of the cell and the radius say so. */
  lemma LinesThatEnter(radius: nat, trie: set<Path>, p: Point, diagonally: bool)
    requires IsTrie(radius, trie) && p != ORIGIN
    ensures (exists s :: EndsAt(trie, s, p) && EndsDiagonally(s) == diagonally) <==> IsEntered(radius, p, diagonally)
  {
    if IsEntered(radius, p, diagonally) {
      var s := PathToEntered(radius, trie, p, diagonally);
    }
    forall s | EndsAt(trie, s, p) && EndsDiagonally(s) == diagonally
      ensures IsEntered(radius, p, diagonally)
    {
      EnteredByPath(radius, trie, p, s);
    }
  }

  lemma EnteredByPath(radius: nat, trie: set<Path>, p: Point, s: Path)
    requires IsTrie(radius, trie) && p != ORIGIN && EndsAt(trie, s, p)
    ensures IsEntered(radius, p, EndsDiagonally(s))
  {
    TrieIsLayered(radius, trie);
    PathDepth(radius, trie, s);
    var w, diagonally := p.LenWalking(), EndsDiagonally(s);
    var end :| OnPerimeter(radius, end) && Admitted(radius, Line(ORIGIN, end), s);
    assert s[w] == Line(ORIGIN, end)[w] == Cell(ORIGIN, end, w);
    assert s[w - 1] == Line(ORIGIN, end)[w - 1] == Cell(ORIGIN, end, w - 1);
    assert !Beyond(radius, s[w - 1]) && w == |s| - 1;
    hide IsTrie, Layered, PassesRows, RowFits, Cell, Line, Point.LenL2Squared, Point.LenWalking, Point.MinorSide, Admitted;
    EndsAsItPasses(radius, end, p, diagonally);
    EndRowFits(radius, p, end.MinorSide(), diagonally);
  }

  // ----- how far one sees through open tall grass -----

  /**
   * Through open tall grass a cell is seen if and only if a line comes to it in one of the two ways,
   * and it is near enough for that way.
   */
  lemma TallGrassIsSeen(radius: nat, v: View, p: Point)
    requires IsTrie(radius, v.trie) && v.sight >= 1 && GrassAround(v, p.LenWalking()) && p != ORIGIN
    ensures v.Sees(p) <==>
            || (IsEntered(radius, p, true) && WithinGrass(v.sight, p, true))
            || (IsEntered(radius, p, false) && WithinGrass(v.sight, p, false))
  {
    TrieIsLayered(radius, v.trie);
    LinesThatEnter(radius, v.trie, p, true);
    LinesThatEnter(radius, v.trie, p, false);
    hide IsTrie, Layered, GrassAround, View.Sees, WithinGrass, EndsDiagonally, EndsAt, IsEntered;
    if v.Sees(p) {
      SeenThroughGrass(radius, v, p);
    }
    forall s | EndsAt(v.trie, s, p) && WithinGrass(v.sight, p, EndsDiagonally(s))
      ensures v.Sees(p)
    {
      GrassSeenThrough(radius, v, p, s);
    }
  }

  /** Where a line comes in diagonally, that is exactly the vision radius. */
  lemma TallGrassRadius(radius: nat, v: View, p: Point)
    requires IsTrie(radius, v.trie) && v.sight >= 1 && GrassAround(v, p.LenWalking())
    requires p != ORIGIN && IsEntered(radius, p, true)
    ensures v.Sees(p) <==> p.LenNethack() <= v.sight
  {
    hide IsTrie, GrassAround, View.Sees, IsEntered;
    TallGrassIsSeen(radius, v, p);
  }

  /** Along the axes no line comes in diagonally, and the reach is shorter. */
  lemma TallGrassOnAnAxis(radius: nat, v: View, p: Point)
    requires IsTrie(radius, v.trie) && v.sight >= 1 && GrassAround(v, p.LenWalking())
    requires p.MinorSide() == 0 && 0 < p.LenWalking() <= radius
    ensures v.Sees(p) <==> 95 * p.LenWalking() < 100 * (v.sight + 1) - 71
  {
    TallGrassIsSeen(radius, v, p);
    AxisIsEntered(radius, p);
    hide IsTrie, GrassAround, View.Sees, IsEntered;
  }

  lemma AxisIsEntered(radius: nat, p: Point)
    requires p.MinorSide() == 0 && 0 < p.LenWalking() <= radius
    ensures IsEntered(radius, p, false) && !IsEntered(radius, p, true)
  {
    hide RowStart, Point.LenL2Squared;
    RowStarts(radius, 0);
    assert EndRow(radius, p, false) >= 0;
    NotNegative(p.LenWalking() - 1, EndRow(radius, p, false));
    AxisIsWithin(radius, p.LenWalking() - 1);
  }

  lemma AxisIsWithin(radius: nat, n: nat)
    requires n < radius
    ensures 4 * Point(n, 0).LenL2Squared() <= (2 * radius - 1) * (2 * radius - 1)
  {
    SquareMonotone(2 * n, 2 * radius - 1);
    assert 4 * (n * n) == (2 * n) * (2 * n);
  }

  /** With a radius of 15 and a vision radius of 5 to 13, a cell straight ahead measures just that and is hidden. */
  lemma TallGrassHidesNearCells(v: View)
    requires IsTrie(15, v.trie) && 5 <= v.sight <= 13 && GrassAround(v, v.sight + 1)
    ensures Point(v.sight + 1, 0).LenNethack() == v.sight && !v.Sees(Point(v.sight + 1, 0))
  {
    TallGrassOnAnAxis(15, v, Point(v.sight + 1, 0));
  }

  lemma NearCellsAreEntered(p: Point)
    requires p.MinorSide() > 0 && p.LenNethack() <= 4
    ensures IsEntered(15, p, true)
  {
    assert 0 < p.MinorSide() <= p.LenWalking() <= 4;
    NearRowFits(p, p.LenWalking(), p.MinorSide());
    hide RowFits, Point.LenL2Squared, Point.LenWalking, Point.MinorSide;
    SmallSquares(p.LenWalking() - 1, p.MinorSide() - 1);
  }

  lemma SmallSquares(a: nat, b: nat)
    requires a <= 3 && b <= 3
    ensures 4 * Point(a, b).LenL2Squared() <= 29 * 29
  {
    SquareMonotone(a, 3);
    SquareMonotone(b, 3);
  }

  lemma NearRowFits(p: Point, w: nat, m: nat)
    requires w == p.LenWalking() && m == p.MinorSide() && 0 < m <= w && 95 * w + 46 * m < 475
    ensures RowFits(15, p, true)
  {
    var k := EndRow(15, p, true);
    assert w <= 4 && k == (30 * m - 15) / (2 * w) + 1;
    hide EndRow, Point.LenWalking, Point.MinorSide;
    if w == 1 {
      assert m == 1 && k == 8;
    } else if w == 2 {
      assert k == if m == 1 then 4 else 12;
    } else if w == 3 {
      assert k == if m == 1 then 3 else if m == 2 then 8 else 13;
    } else {
      assert k == if m == 1 then 2 else 6;
    }
  }

  lemma ViewerSeesItself(radius: nat, v: View)
    requires IsTrie(radius, v.trie) && v.sight >= 1
    ensures v.Sees(ORIGIN)
  {
    TrieIsLayered(radius, v.trie);
    VisitedIsSeen(radius, v, [ORIGIN]);
  }

  lemma NearCellIsSeen(v: View, p: Point)
    requires IsTrie(15, v.trie) && 1 <= v.sight <= 4 && GrassAround(v, p.LenWalking())
    requires p.LenNethack() <= v.sight
    ensures v.Sees(p)
  {
    hide IsTrie, View.Sees, GrassAround, IsEntered;
    if p == ORIGIN {
      ViewerSeesItself(15, v);
    } else if p.MinorSide() == 0 {
      TallGrassOnAnAxis(15, v, p);
    } else {
      NearCellsAreEntered(p);
      TallGrassRadius(15, v, p);
    }
  }

  /**
   * With a radius of 15, open tall grass lets one see exactly as far as the vision radius while that
   * is at most 4, as the 3 of the game is, and no longer.
   */
  lemma TallGrassIsExactIff(v: View)
    requires IsTrie(15, v.trie) && 1 <= v.sight <= 13 && GrassAround(v, 15)
    ensures (forall p: Point :: v.Sees(p) <==> p.LenNethack() <= v.sight) <==> v.sight <= 4
  {
    GrassAllAround(v);
    hide IsTrie, View.Sees, GrassAround, GrassOrBlocked;
    if v.sight > 4 {
      TallGrassHidesNearCells(v);
    } else {
      forall p: Point
        ensures v.Sees(p) <==> p.LenNethack() <= v.sight
      {
        if v.Sees(p) {
          NothingSeenBeyondTheMap(15, v, p);
          TallGrassBound(15, v, p);
        } else if p.LenNethack() <= v.sight {
          NearCellIsSeen(v, p);
        }
      }
    }
  }

  lemma GrassAllAround(v: View)
    requires GrassAround(v, 15)
    ensures forall n: nat | n <= 15 :: GrassAround(v, n) && GrassOrBlocked(v, n)
  {}

  /** Within n king's moves of the viewer nothing is in the way. */
  ghost predicate OpenAround(v: View, n: nat) {
    forall p: Point | 0 < p.LenWalking() <= n :: v.FlagsAt(p) == Flags(false, false)
  }

  lemma OpenStep(radius: nat, v: View, s: Path)
    requires Layered(radius, v.trie) && v.sight >= 1 && s in v.trie && |s| > 1 && OpenAround(v, |s| - 1)
    requires v.Visited(Up(s)) && v.Light(Up(s)) == v.Best(|s| - 1, s[|s| - 2]) == Budget(v.sight)
    ensures v.Visited(s) && v.Light(s) == Budget(v.sight)
  {
    PathDepth(radius, v.trie, s);
    assert v.FlagsAt(s[|s| - 1]) == Flags(false, false);
    hide Layered, OpenAround, View.FlagsAt, View.Best;
  }

  lemma {:induction false} OpenFieldIsBright(radius: nat, v: View, s: Path)
    requires Layered(radius, v.trie) && v.sight >= 1
    requires s in v.trie && s != [] && OpenAround(v, |s| - 1)
    ensures v.Visited(s) && v.Light(s) == Budget(v.sight)
    decreases |s|
  {
    var n := |s|;
    VisitedFromTheRoot(v, s);
    PathDepth(radius, v.trie, s);
    assert n > 1 ==> OpenAround(v, n - 2);
    assert n == 1 ==> v.Light(s) == Budget(v.sight);
    hide Layered, OpenAround, View.Best, View.Light, View.Visited, View.FlagsAt, Budget, Point.LenWalking;
    if n > 1 {
      OpenFieldIsBright(radius, v, Up(s));
      forall t | t in v.trie && |t| == n - 1 && t[n - 2] == s[n - 2] && v.Visited(t)
        ensures v.Light(t) == Budget(v.sight)
      {
        OpenFieldIsBright(radius, v, t);
      }
      SameLightIsBest(v, Up(s), Budget(v.sight));
      OpenStep(radius, v, s);
    }
  }

  /** With nothing in the way as far as the cell, every cell within radius - 0.5 is seen at full light. */
  lemma OpenFieldCoverage(radius: nat, v: View, p: Point)
    requires IsTrie(radius, v.trie) && radius >= 1 && v.sight >= 1 && OpenAround(v, p.LenWalking())
    requires 4 * p.LenL2Squared() <= (2 * radius - 1) * (2 * radius - 1)
    ensures v.LightAt(p) == Budget(v.sight)
  {
    TrieIsLayered(radius, v.trie);
    var s := TrieCovers(radius, v.trie, p);
    hide IsTrie, Layered, View.Visited, View.Light, View.FlagsAt, Point.LenL2Squared;
    OpenFieldIsBright(radius, v, s);
    VisitedIsSeen(radius, v, s);
    var t := SeenIsVisited(v, p);
    OpenFieldIsBright(radius, v, t);
  }

  /** No cell outside the square that the light map stores is ever seen. */
  lemma NothingSeenBeyondTheMap(radius: nat, v: View, p: Point)
    requires IsTrie(radius, v.trie) && v.Sees(p)
    ensures p.LenWalking() <= radius
  {
    TrieIsLayered(radius, v.trie);
    var s := SeenIsVisited(v, p);
  }
}

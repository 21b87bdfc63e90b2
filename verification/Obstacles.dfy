/** What stops sight and what dims it, stated without the recursion that computes the light. */
module Obstacles {
  import opened Geometry
  import opened LineOfSight
  import opened FovTrie
  import opened Lighting
  import opened Sight

  // ----- walls -----

  /** No cell strictly between the ends is blocked. */
  ghost predicate IsClear(v: View, s: Path) {
    forall i | 0 < i < |s| - 1 :: !v.FlagsAt(s[i]).blocked
  }

  lemma {:induction false} VisitedIsClear(v: View, s: Path)
    requires s != [] && v.Visited(s)
    ensures IsClear(v, s)
  {
    if |s| > 1 {
      VisitedIsClear(v, Up(s));
    }
  }

  /** Whatever is seen is seen along some path without a wall in it. */
  lemma SeenAlongClearPath(v: View, p: Point) returns (s: Path)
    requires v.Sees(p)
    ensures s in v.trie && |s| == p.LenWalking() + 1 && s[|s| - 1] == p && IsClear(v, s)
  {
    s := SeenIsVisited(v, p);
    hide View.Visited, View.Light;
    VisitedIsClear(v, s);
  }

  /** A ring of walls n king's moves away hides everything past it. */
  lemma RingHidesTheRest(radius: nat, v: View, n: nat, p: Point)
    requires IsTrie(radius, v.trie) && n > 0
    requires forall q: Point | q.LenWalking() == n :: v.FlagsAt(q).blocked
    requires p.LenWalking() > n
    ensures !v.Sees(p)
  {
    TrieIsLayered(radius, v.trie);
    hide View.Visited, View.Light, View.FlagsAt, View.Sees, IsTrie;
    if v.Sees(p) {
      var s := SeenAlongClearPath(v, p);
      CellOfPath(radius, v.trie, s, n);
    }
  }

  lemma CellOfPath(radius: nat, trie: set<Path>, s: Path, i: nat)
    requires Layered(radius, trie) && s in trie && i < |s|
    ensures s[i].LenWalking() == i
  {}

  /**
   * Where there is no tall grass nearer than the cell, it is seen, be it a wall or not, if and only if some
   * path to it has no wall in between.
   */
  lemma SeenIffClear(radius: nat, v: View, p: Point)
    requires IsTrie(radius, v.trie) && v.sight >= 1
    requires forall q: Point | 0 < q.LenWalking() < p.LenWalking() :: !v.FlagsAt(q).obscure
    ensures v.Sees(p) <==> exists s :: EndsAt(v.trie, s, p) && IsClear(v, s)
  {
    TrieIsLayered(radius, v.trie);
    hide IsTrie, View.Sees, View.FlagsAt, IsClear, Toll;
    if v.Sees(p) {
      var s := SeenAlongClearPath(v, p);
      assert EndsAt(v.trie, s, p);
    }
    forall s | EndsAt(v.trie, s, p) && IsClear(v, s)
      ensures v.Sees(p)
    {
      PathDepth(radius, v.trie, s);
      if |s| > 1 { NothingToPay(radius, v, Up(s)); }
      SeenAlong(radius, v, p, s);
    }
  }

  // ----- how far lines reach -----

  /** A line is followed no further than its first cell past radius - 0.5, and with a radius of 0 nowhere. */
  lemma LinesAreCut(radius: nat, trie: set<Path>, s: Path)
    requires IsTrie(radius, trie) && s in trie && |s| > 1
    ensures radius >= 1
    ensures forall j | 0 <= j < |s| - 1 :: 4 * s[j].LenL2Squared() <= (2 * radius - 1) * (2 * radius - 1)
  {
    forall j | 0 <= j < |s| - 1
      ensures radius >= 1 && 4 * s[j].LenL2Squared() <= (2 * radius - 1) * (2 * radius - 1)
    {}
    assert s[0] == s[0];
  }

  /** So every cell that is seen, but the viewer's own, is a king's move away from one within radius - 0.5. */
  lemma SeenIsNextToWithin(radius: nat, v: View, p: Point) returns (q: Point)
    requires IsTrie(radius, v.trie) && v.Sees(p) && p != ORIGIN
    ensures radius >= 1 && 4 * q.LenL2Squared() <= (2 * radius - 1) * (2 * radius - 1)
    ensures p.Minus(q).LenWalking() == 1
  {
    TrieIsLayered(radius, v.trie);
    hide View.Sees, IsTrie, View.FlagsAt;
    var s := SeenAlongClearPath(v, p);
    LinesAreCut(radius, v.trie, s);
    PathStep(radius, v.trie, s);
    q := s[|s| - 2];
  }

  /** On open ground a cell is seen if and only if a line comes to it, for which there are two conditions in numbers. */
  lemma OpenGroundIsSeen(radius: nat, v: View, p: Point)
    requires IsTrie(radius, v.trie) && v.sight >= 1 && p != ORIGIN
    requires forall q: Point | 0 < q.LenWalking() < p.LenWalking() :: v.FlagsAt(q) == Flags(false, false)
    ensures v.Sees(p) <==> IsEntered(radius, p, true) || IsEntered(radius, p, false)
  {
    TrieIsLayered(radius, v.trie);
    LinesThatEnter(radius, v.trie, p, true);
    LinesThatEnter(radius, v.trie, p, false);
    forall s | EndsAt(v.trie, s, p)
      ensures IsClear(v, s)
    {
      PathDepth(radius, v.trie, s);
    }
    hide IsTrie, View.Sees, View.FlagsAt, IsClear, IsEntered, EndsDiagonally;
    SeenIffClear(radius, v, p);
  }

  // ----- tall grass -----

  /** What the cells of a way cost after the first: 95 for each of tall grass, and 46 more if it is entered diagonally. */
  ghost function Toll(v: View, way: seq<Point>): nat
    requires way != []
  {
    if |way| == 1 then 0
    else
      var p, q := way[|way| - 1], way[|way| - 2];
      Toll(v, way[..|way| - 1]) +
      if !v.FlagsAt(p).obscure then 0 else if p.x != q.x && p.y != q.y then 141 else 95
  }

  /** What is left of the light that a vision radius gives. */
  function Left(sight: nat, toll: nat): int {
    Max(0, 100 * sight - 66 - toll)
  }

  lemma LightIsGathered(v: View, s: Path)
    requires |s| > 1 && !v.FlagsAt(s[|s| - 1]).blocked
    ensures v.Light(s) == Max(0, v.Best(|s| - 1, s[|s| - 2]) - (Toll(v, s) - Toll(v, Up(s))))
  {
    hide View.Best, View.FlagsAt, Toll;
    TollOfStep(v, s);
  }

  lemma TollOfStep(v: View, s: Path)
    requires |s| > 1
    ensures Toll(v, s) == Toll(v, Up(s)) + Loss(v.FlagsAt(s[|s| - 1]), s[|s| - 1], s[|s| - 2])
  {}

  /** A clear path whose toll is below the light to start with is visited, and brings at least what is left. */
  lemma {:induction false} LightAtLeast(radius: nat, v: View, s: Path)
    requires Layered(radius, v.trie) && v.sight >= 1 && s in v.trie && s != []
    requires IsClear(v, s) && (|s| > 1 ==> Left(v.sight, Toll(v, Up(s))) > 0)
    ensures v.Visited(s)
    ensures |s| == 1 || !v.FlagsAt(s[|s| - 1]).blocked ==> v.Light(s) >= Left(v.sight, Toll(v, s))
    decreases |s|
  {
    VisitedFromTheRoot(v, s);
    if |s| > 1 {
      var u := Up(s);
      PathDepth(radius, v.trie, s);
      assert |u| > 1 ==> !v.FlagsAt(u[|u| - 1]).blocked;
      if |u| > 1 { TollOfStep(v, u); }
      hide View.FlagsAt, View.Best, View.Light, View.Visited, Toll, Loss, Layered;
      LightAtLeast(radius, v, u);
      OneMoreCell(radius, v, s);
    }
  }

  lemma OneMoreCell(radius: nat, v: View, s: Path)
    requires Layered(radius, v.trie) && v.sight >= 1 && s in v.trie && |s| > 1
    requires v.Visited(Up(s)) && v.Light(Up(s)) >= Left(v.sight, Toll(v, Up(s))) > 0
    ensures v.Visited(s)
    ensures !v.FlagsAt(s[|s| - 1]).blocked ==> v.Light(s) >= Left(v.sight, Toll(v, s))
  {
    PathDepth(radius, v.trie, s);
    assert v.Visited(s);
    hide View.FlagsAt, View.Best, View.Light, View.Visited, Toll, Layered;
    VisitedIsSeen(radius, v, Up(s));
    if !v.FlagsAt(s[|s| - 1]).blocked {
      LightIsGathered(v, s);
    }
  }

  /** So a cell is seen if a clear path to it leaves light at the cell before. */
  lemma SeenAlong(radius: nat, v: View, p: Point, s: Path)
    requires Layered(radius, v.trie) && v.sight >= 1 && EndsAt(v.trie, s, p) && IsClear(v, s)
    requires |s| > 1 ==> Left(v.sight, Toll(v, Up(s))) > 0
    ensures v.Sees(p) && (|s| == 1 || !v.FlagsAt(p).blocked ==> v.LightAt(p) >= Left(v.sight, Toll(v, s)))
  {
    hide View.FlagsAt, View.Best, View.Light, View.Visited, Toll, Layered, IsClear;
    LightAtLeast(radius, v, s);
    PathDepth(radius, v.trie, s);
    VisitedIsSeen(radius, v, s);
  }

  lemma {:induction false} NothingToPay(radius: nat, v: View, s: Path)
    requires Layered(radius, v.trie) && s in v.trie && s != []
    requires forall q: Point | 0 < q.LenWalking() < |s| :: !v.FlagsAt(q).obscure
    ensures Toll(v, s) == 0
  {
    hide View.FlagsAt;
    PathDepth(radius, v.trie, s);
    if |s| > 1 {
      hide Layered;
      NothingToPay(radius, v, Up(s));
    }
  }

  /** One king's move after another away from the viewer, through cells that are not blocked. */
  ghost predicate IsWay(v: View, way: seq<Point>) {
    && way != [] && way[0] == ORIGIN
    && (forall i | 0 <= i < |way| :: way[i].LenWalking() == i)
    && (forall i | 0 < i < |way| :: way[i].Minus(way[i - 1]).LenWalking() == 1)
    && (forall i | 0 < i < |way| :: !v.FlagsAt(way[i]).blocked)
  }

  lemma WayGoesOn(v: View, way: seq<Point>, p: Point)
    requires IsWay(v, way) && p.LenWalking() == |way| && p.Minus(way[|way| - 1]).LenWalking() == 1
    requires !v.FlagsAt(p).blocked
    ensures IsWay(v, way + [p])
  {
    hide View.FlagsAt, Point.LenWalking, Point.Minus;
    assert forall i | 0 <= i < |way| :: (way + [p])[i] == way[i];
  }

  lemma TollGoesOn(v: View, way: seq<Point>, p: Point)
    requires way != []
    ensures Toll(v, way + [p]) == Toll(v, way) + Loss(v.FlagsAt(p), p, way[|way| - 1])
  {
    hide View.FlagsAt, Loss;
    assert (way + [p])[..|way|] == way;
    TollOfStep(v, way + [p]);
  }

  lemma PathStep(radius: nat, trie: set<Path>, s: Path)
    requires IsTrie(radius, trie) && s in trie && |s| > 1
    ensures s[|s| - 1].Minus(s[|s| - 2]).LenWalking() == 1
  {
    var end :| OnPerimeter(radius, end) && Admitted(radius, Line(ORIGIN, end), s);
    assert s[|s| - 2] == Line(ORIGIN, end)[|s| - 2] == Cell(ORIGIN, end, |s| - 2);
    assert s[|s| - 1] == Line(ORIGIN, end)[|s| - 1] == Cell(ORIGIN, end, |s| - 1);
    hide Line, Cell, IsStep, WithinHalfCell;
    CellIsDigital(ORIGIN, end, |s| - 2);
    StepIsKings(end, s[|s| - 2], s[|s| - 1]);
  }

  lemma StepIsKings(end: Point, p: Point, q: Point)
    requires end != ORIGIN && IsStep(ORIGIN, end, p, q)
    ensures q.Minus(p).LenWalking() == 1
  {}

  lemma LeftAfter(sight: nat, toll: nat, cost: nat, best: int)
    requires 0 < best <= Left(sight, toll)
    ensures Max(0, best - cost) <= Left(sight, toll + cost)
  {}

  /** And no more light arrives than some way through open cells leaves. */
  lemma {:induction false} LightAtMost(radius: nat, v: View, s: Path) returns (way: seq<Point>)
    requires IsTrie(radius, v.trie) && Layered(radius, v.trie) && v.sight >= 1 && s in v.trie && s != []
    requires v.Visited(s) && (|s| == 1 || !v.FlagsAt(s[|s| - 1]).blocked)
    ensures IsWay(v, way) && |way| == |s| && way[|s| - 1] == s[|s| - 1]
    ensures v.Light(s) <= Left(v.sight, Toll(v, way))
    decreases |s|
  {
    hide View.FlagsAt, View.Best, View.Light, View.Visited, Toll, Layered, IsTrie, IsWay, Left, Point.LenWalking;
    PathDepth(radius, v.trie, s);
    if |s| == 1 {
      WayStarts(radius, v, s);
      way := [ORIGIN];
    } else {
      var t := BrightestAbove(radius, v, s);
      PathStep(radius, v.trie, s);
      way := LightAtMost(radius, v, t);
      WayGoesOn(v, way, s[|s| - 1]);
      DimmedAlike(v, s, t, way);
      way := way + [s[|s| - 1]];
    }
  }

  lemma WayStarts(radius: nat, v: View, s: Path)
    requires Layered(radius, v.trie) && v.sight >= 1 && s in v.trie && |s| == 1
    ensures s[0] == ORIGIN && IsWay(v, [ORIGIN]) && v.Light(s) == Left(v.sight, Toll(v, [ORIGIN]))
  {
    assert s[0].LenWalking() == 0;
  }

  lemma DimmedAlike(v: View, s: Path, t: Path, way: seq<Point>)
    requires |s| > 1 && t != [] && way != [] && way[|way| - 1] == s[|s| - 2] && !v.FlagsAt(s[|s| - 1]).blocked
    requires 0 < v.Best(|s| - 1, s[|s| - 2]) == v.Light(t) <= Left(v.sight, Toll(v, way))
    ensures v.Light(s) <= Left(v.sight, Toll(v, way + [s[|s| - 1]]))
  {
    hide View.FlagsAt, View.Best, View.Light, Toll, Loss, Left;
    LightIsGathered(v, s);
    TollOfStep(v, s);
    TollGoesOn(v, way, s[|s| - 1]);
    LeftAfter(v.sight, Toll(v, way), Toll(v, s) - Toll(v, Up(s)), v.Light(t));
  }

  /** The path that brought the most light to the cell before the end. */
  lemma BrightestAbove(radius: nat, v: View, s: Path) returns (t: Path)
    requires Layered(radius, v.trie) && v.sight >= 1 && s in v.trie && |s| > 1 && v.Visited(s)
    ensures t in v.trie && |t| == |s| - 1 && t[|t| - 1] == s[|s| - 2] && v.Visited(t)
    ensures v.Light(t) == v.Best(|s| - 1, s[|s| - 2]) > 0
    ensures |t| == 1 || !v.FlagsAt(t[|t| - 1]).blocked
  {
    PathDepth(radius, v.trie, s);
    VisitedFromTheRoot(v, s);
    assert v.Light(Up(s)) > 0;
    VisitedIsSeen(radius, v, Up(s));
    var n, q := |s| - 1, s[|s| - 2];
    t := BestArrives(v, n, q);
    LightOfBlocked(v, t);
  }

  lemma BestArrives(v: View, n: nat, q: Point) returns (t: Path)
    requires v.Best(n, q) >= 0
    ensures n > 0 && t in v.trie && |t| == n && t[n - 1] == q && v.Visited(t) && v.Light(t) == v.Best(n, q)
  {
    hide View.Visited, View.Light;
    assert v.Best(n, q) in v.Arrivals(n, q);
    t :| t in v.trie && |t| == n > 0 && t[n - 1] == q && v.Visited(t) && v.Light(t) == v.Best(n, q);
  }

  lemma LightOfBlocked(v: View, t: Path)
    requires t != []
    ensures |t| > 1 && v.FlagsAt(t[|t| - 1]).blocked ==> v.Light(t) == 0
  {}

  /** What reaches an open cell that is seen lies between what the best clear path and the best way leave. */
  lemma LightIsBounded(radius: nat, v: View, p: Point) returns (way: seq<Point>)
    requires IsTrie(radius, v.trie) && v.sight >= 1 && v.Sees(p) && (p == ORIGIN || !v.FlagsAt(p).blocked)
    ensures IsWay(v, way) && way[|way| - 1] == p && v.LightAt(p) <= Left(v.sight, Toll(v, way))
    ensures forall s | EndsAt(v.trie, s, p) && IsClear(v, s) && (|s| > 1 ==> Left(v.sight, Toll(v, Up(s))) > 0) ::
              v.LightAt(p) >= Left(v.sight, Toll(v, s))
  {
    TrieIsLayered(radius, v.trie);
    hide View.FlagsAt, Toll, Layered, IsTrie, IsWay, IsClear, View.LightAt, EndsAt, Left, Point.LenWalking;
    way := WayToSeen(radius, v, p);
    PathsLeave(radius, v, p);
  }

  lemma WayToSeen(radius: nat, v: View, p: Point) returns (way: seq<Point>)
    requires IsTrie(radius, v.trie) && Layered(radius, v.trie)
    requires v.sight >= 1 && v.Sees(p) && (p == ORIGIN || !v.FlagsAt(p).blocked)
    ensures IsWay(v, way) && way[|way| - 1] == p && v.LightAt(p) <= Left(v.sight, Toll(v, way))
  {
    hide View.FlagsAt, View.Best, View.Light, View.Visited, Toll, Layered, IsTrie, IsWay, View.LightAt, Left;
    var u := SeenIsVisited(v, p);
    way := LightAtMost(radius, v, u);
  }

  lemma PathsLeave(radius: nat, v: View, p: Point)
    requires Layered(radius, v.trie) && v.sight >= 1 && (p == ORIGIN || !v.FlagsAt(p).blocked)
    ensures forall s | EndsAt(v.trie, s, p) && IsClear(v, s) && (|s| > 1 ==> Left(v.sight, Toll(v, Up(s))) > 0) ::
              v.LightAt(p) >= Left(v.sight, Toll(v, s))
  {
    hide View.FlagsAt, View.Best, View.Light, View.Visited, Toll, Layered, IsClear, View.LightAt, Left;
    forall s | EndsAt(v.trie, s, p) && IsClear(v, s) && (|s| > 1 ==> Left(v.sight, Toll(v, Up(s))) > 0)
      ensures v.LightAt(p) >= Left(v.sight, Toll(v, s))
    {
      PathDepth(radius, v.trie, s);
      SeenAlong(radius, v, p, s);
    }
  }
}

/** What an entity sees: the light map of Board::getVision, stated without the walk that fills it. */
module Lighting {
  import opened Geometry
  import opened Optional
  import opened LineOfSight
  import opened FovTrie

  datatype Glyph = Glyph(ch: nat, fg: nat, bg: nat)

  datatype Flags = Flags(blocked: bool, obscure: bool)

  datatype Tile = Tile(glyph: Glyph, flags: Flags, description: string)

  type TileMap = m: Matrix<Tile> | m.Valid()
    witness Matrix(ORIGIN, Tile(Glyph(0, 0, 0), Flags(true, false), ""), [])

  type LightMap = m: Matrix<int> | m.Valid()
    witness Matrix(ORIGIN, -1, [])

  // ----- the callback of getVision -----

  /** Light at the viewer's own cell, chosen with LenNethack in mind. */
  function Budget(sight: nat): int {
    100 * (sight + 1) - 95 - 46 - 25
  }

  function Loss(flags: Flags, p: Point, above: Point): nat {
    if !flags.obscure then 0
    else if p.x != above.x && p.y != above.y then 95 + 46
    else 95
  }

  /** One call of the lambda passed to fieldOfVision; its state is the light map. */
  function Look(tiles: TileMap, pos: Point, offset: Point, sight: nat,
                seen: LightMap, p: Point, above: Option<Point>): (LightMap, bool) {
    var q := p.Plus(pos);
    var visibility :=
      if above == None then Budget(sight)
      else if tiles.Get(q).flags.blocked then 0
      else
        var prev := seen.Get(above.value.Plus(pos).Plus(offset));
        Max(prev - Loss(tiles.Get(q).flags, p, above.value), 0);
    var key := q.Plus(offset);
    (seen.Set(key, Max(visibility, seen.Get(key))), visibility <= 0)
  }

  function Looker(tiles: TileMap, pos: Point, offset: Point, sight: nat): Callback<LightMap> {
    (seen: LightMap, p: Point, above: Option<Point>) => Look(tiles, pos, offset, sight, seen, p, above)
  }

  // ----- the light map as a recursion over paths -----

  ghost predicate IsGreatest(s: set<int>, m: int) {
    m in s && forall x :: x in s ==> x <= m
  }

  lemma {:induction false} HasGreatest(s: set<int>)
    requires s != {}
    ensures exists m :: IsGreatest(s, m)
  {
    assert (forall x :: x !in s) ==> s == {};
    var x :| x in s;
    var rest := s - {x};
    assert s == rest + {x};
    if rest == {} {
      assert IsGreatest(s, x);
    } else {
      HasGreatest(rest);
      var m :| IsGreatest(rest, m);
      assert IsGreatest(s, Max(x, m));
    }
  }

  ghost function Greatest(s: set<int>): (m: int)
    ensures s == {} ==> m == -1
    ensures s != {} ==> IsGreatest(s, m)
  {
    if s == {} then -1
    else
      HasGreatest(s);
      var m :| IsGreatest(s, m);
      m
  }

  /** A viewer at pos on a board of tiles, with the trie of sight lines it looks along. */
  datatype View = View(sight: nat, trie: set<Path>, tiles: TileMap, pos: Point) {

    /** The callback of a walk that fills a map of the given radius around the viewer. */
    function LookAround(radius: nat): Callback<LightMap> {
      Looker(tiles, pos, Point(radius, radius).Minus(pos), sight)
    }

    function FlagsAt(p: Point): Flags {
      tiles.Get(p.Plus(pos)).flags
    }

    /** The light that reaches the end of a path from the brightest way to reach the cell before it. */
    ghost function Light(s: Path): int
      requires s != []
      decreases |s|, 0
    {
      if |s| == 1 then Budget(sight)
      else
        var p, above := s[|s| - 1], s[|s| - 2];
        if FlagsAt(p).blocked then 0
        else Max(Best(|s| - 1, above) - Loss(FlagsAt(p), p, above), 0)
    }

    /** Light is left at every cell before the end of the path. */
    ghost predicate Visited(s: Path)
      requires s != []
      decreases |s|, 1
    {
      |s| == 1 || (Visited(Up(s)) && Light(Up(s)) > 0)
    }

    /** The lights that visited paths of n cells bring to p. */
    ghost function Arrivals(n: nat, p: Point): set<int>
      decreases n, 2
    {
      set s | s in trie && |s| == n > 0 && s[n - 1] == p && Visited(s) :: Light(s)
    }

    /** The brightest of them; -1 if there is none. */
    ghost function Best(n: nat, p: Point): int
      decreases n, 3
    {
      Greatest(Arrivals(n, p))
    }

    /** Light at a cell given relative to the viewer. */
    ghost function LightAt(p: Point): int {
      Best(p.LenWalking() + 1, p)
    }

    ghost predicate Sees(p: Point) {
      LightAt(p) >= 0
    }
  }

  // ----- the shape of the trie -----

  /** A path of n cells ends n - 1 king's moves from its start, and every prefix is a path too. */
  ghost predicate Layered(radius: nat, trie: set<Path>) {
    && (forall s | s in trie :: s != [] && |s| <= radius + 1)
    && (forall s: Path, i | s in trie && 0 <= i < |s| :: s[i].LenWalking() == i)
    && (forall s {:trigger Up(s)} | s in trie && |s| > 1 :: Up(s) in trie)
    && [ORIGIN] in trie
  }

  lemma LineIsLayered(radius: nat, end: Point, i: nat)
    requires OnPerimeter(radius, end) && i <= radius
    ensures Cell(ORIGIN, end, i).LenWalking() == i
    ensures Cell(ORIGIN, end, i).MinorSide() == MinorSteps(radius, end.MinorSide(), i)
  {
    hide MinorSteps;
    MinorStepsBounded(radius, end.MinorSide(), i);
  }

  lemma TrieIsLayered(radius: nat, trie: set<Path>)
    requires IsTrie(radius, trie)
    ensures Layered(radius, trie)
  {
    RootIsInserted(radius);
    forall s: Path | s in trie
      ensures s != [] && |s| <= radius + 1
      ensures forall i :: 0 <= i < |s| ==> s[i].LenWalking() == i
      ensures |s| > 1 ==> Up(s) in trie
    {
      var end :| OnPerimeter(radius, end) && Admitted(radius, Line(ORIGIN, end), s);
      forall i: nat | i < |s|
        ensures s[i].LenWalking() == i
      {
        assert s[i] == Line(ORIGIN, end)[i] == Cell(ORIGIN, end, i);
        LineIsLayered(radius, end, i);
      }
      if |s| > 1 {
        assert Admitted(radius, Line(ORIGIN, end), Up(s));
      }
    }
  }

  // ----- the walk computes the recursion -----

  ghost function LightsAt(v: View, order: seq<Path>, p: Point): set<int>
    requires [] !in order
  {
    set s | s in order && s[|s| - 1] == p :: v.Light(s)
  }

  function Start(radius: nat): (start: LightMap)
    ensures start.init == -1
  {
    NewMatrix(Point(2 * radius + 1, 2 * radius + 1), -1)
  }

  /** The map holds, for every cell, the brightest of the lights that the visited paths brought there. */
  ghost predicate Holds(radius: nat, seen: LightMap, v: View, order: seq<Path>)
    requires [] !in order
  {
    && seen.size == Start(radius).size && seen.init == -1
    && forall p: Point {:trigger LightsAt(v, order, p)} ::
         seen.Get(p.Plus(Point(radius, radius))) == Greatest(LightsAt(v, order, p))
  }

  lemma GreatestWith(s: set<int>, x: int)
    requires x >= -1
    ensures Greatest(s + {x}) == Max(x, Greatest(s))
  {}

  lemma LightIsNatural(v: View, s: Path)
    requires v.sight >= 1 && s != []
    ensures v.Light(s) >= 0
  {}

  lemma LightsSnoc(v: View, order: seq<Path>, t: Path, p: Point)
    requires [] !in order && t != []
    ensures LightsAt(v, order + [t], p) == LightsAt(v, order, p) + if t[|t| - 1] == p then {v.Light(t)} else {}
  {}

  /** Every visited path shorter than the one now being looked at has been looked at before. */
  lemma {:induction false} ShorterPathsFirst(radius: nat, v: View, order: seq<Path>, passed: seq<bool>, k: nat, t: Path)
    requires Layered(radius, v.trie) && IsWalk(v.trie, order, passed)
    requires k <= |order| && (forall j :: 0 <= j < k ==> passed[j] == (v.Light(order[j]) > 0))
    requires t in v.trie && (k < |order| ==> |t| < |order[k]|)
    ensures v.Visited(t) <==> t in order[..k]
    decreases |t|
  {
    assert forall j :: k <= j < |order| ==> |order[k]| <= |order[j]|;
    assert t in order <==> t in order[..k];
    if |t| > 1 {
      var u := Up(t);
      ShorterPathsFirst(radius, v, order, passed, k, u);
      if Opened(order, passed, u) {
        var j :| 0 <= j < |passed| && order[j] == u && passed[j];
        assert j < k;
      }
      if u in order[..k] && v.Light(u) > 0 {
        var j :| 0 <= j < k && order[j] == u;
        assert passed[j];
      }
    }
  }

  /** By the time a path is looked at, the cell before its end has received all the light it will get. */
  lemma CellAboveIsFinal(radius: nat, v: View, order: seq<Path>, passed: seq<bool>, k: nat)
    requires Layered(radius, v.trie) && IsWalk(v.trie, order, passed)
    requires k < |order| && |order[k]| > 1 && forall j :: 0 <= j < k ==> passed[j] == (v.Light(order[j]) > 0)
    ensures var n := |order[k]|;
      Greatest(LightsAt(v, order[..k], order[k][n - 2])) == v.Best(n - 1, order[k][n - 2])
  {
    var n := |order[k]|;
    var q := order[k][n - 2];
    forall t: Path | t in v.trie && t[|t| - 1] == q
      ensures |t| == n - 1 && (v.Visited(t) <==> t in order[..k])
    {
      assert t[|t| - 1].LenWalking() == |t| - 1 && order[k][n - 2].LenWalking() == n - 2;
      ShorterPathsFirst(radius, v, order, passed, k, t);
    }
    assert LightsAt(v, order[..k], q) == v.Arrivals(n - 1, q);
  }

  lemma {:induction false} WalkHolds(radius: nat, v: View, order: seq<Path>, k: nat)
    requires v.sight >= 1 && Layered(radius, v.trie) && k <= |order|
    requires [] !in order && IsWalk(v.trie, order, Answers(v.LookAround(radius), Start(radius), order))
    ensures Holds(radius, Run(v.LookAround(radius), Start(radius), order[..k]), v, order[..k])
    ensures forall j :: 0 <= j < k ==>
                        LetsPass(v.LookAround(radius), Start(radius), order, j) == (v.Light(order[j]) > 0)
  {
    hide Holds, Run, LetsPass, Layered, Start, IsWalk, View.Light, View.Best, Look, LightsAt;
    var look := v.LookAround(radius);
    if k == 0 {
      assert order[..0] == [];
      RunNothing(look, Start(radius));
      StartHolds(radius, v);
    } else {
      WalkHolds(radius, v, order, k - 1);
      WalkStaysInTrie(v.trie, order, Answers(look, Start(radius), order), k - 1);
      RunNext(look, Start(radius), order, k - 1);
      var s, before := order[k - 1], Run(look, Start(radius), order[..k - 1]);
      if |s| > 1 {
        CellAboveIsFinal(radius, v, order, Answers(look, Start(radius), order), k - 1);
      }
      LookHolds(radius, v, order[..k - 1], before, s);
      assert order[..k] == order[..k - 1] + [s];
    }
  }

  lemma WalkStaysInTrie(trie: set<Path>, order: seq<Path>, passed: seq<bool>, k: nat)
    requires IsWalk(trie, order, passed) && k < |order|
    ensures order[k] in trie && order[k] != []
  {}

  lemma StartHolds(radius: nat, v: View)
    ensures Holds(radius, Start(radius), v, [])
  {}

  lemma LookHolds(radius: nat, v: View, order: seq<Path>, before: LightMap, s: Path)
    requires v.sight >= 1 && Layered(radius, v.trie) && s in v.trie && [] !in order
    requires Holds(radius, before, v, order)
    requires |s| > 1 ==> Greatest(LightsAt(v, order, s[|s| - 2])) == v.Best(|s| - 1, s[|s| - 2])
    ensures var (after, stop) := v.LookAround(radius)(before, s[|s| - 1], Above(s));
      Holds(radius, after, v, order + [s]) && stop == (v.Light(s) <= 0)
  {
    hide LightsAt, Holds, Layered, View.Light, View.Best, Look, Matrix.Get, Matrix.Set;
    if |s| > 1 {
      HoldsAt(radius, before, v, order, s[|s| - 2]);
    }
    PathEndsInSquare(radius, v.trie, s);
    LightIsNatural(v, s);
    LookComputes(radius, v, before, s);
    WriteHolds(radius, v, order, before, s);
  }

  lemma LookComputes(radius: nat, v: View, before: LightMap, s: Path)
    requires s != []
    requires |s| > 1 ==> before.Get(s[|s| - 2].Plus(Point(radius, radius))) == v.Best(|s| - 1, s[|s| - 2])
    ensures var key := s[|s| - 1].Plus(Point(radius, radius));
      v.LookAround(radius)(before, s[|s| - 1], Above(s)) ==
      (before.Set(key, Max(v.Light(s), before.Get(key))), v.Light(s) <= 0)
  {
    hide View.Best, Matrix.Get, Matrix.Set;
    var p, centre := s[|s| - 1], Point(radius, radius);
    if |s| > 1 {
      assert s[|s| - 2].Plus(v.pos).Plus(centre.Minus(v.pos)) == s[|s| - 2].Plus(centre);
    }
    assert p.Plus(v.pos).Plus(centre.Minus(v.pos)) == p.Plus(centre);
  }

  lemma HoldsAt(radius: nat, seen: LightMap, v: View, order: seq<Path>, p: Point)
    requires [] !in order && Holds(radius, seen, v, order)
    ensures seen.Get(p.Plus(Point(radius, radius))) == Greatest(LightsAt(v, order, p))
  {}

  lemma PathEndsInSquare(radius: nat, trie: set<Path>, s: Path)
    requires Layered(radius, trie) && s in trie
    ensures s != [] && s[|s| - 1].LenWalking() == |s| - 1 <= radius
  {}

  lemma WriteHolds(radius: nat, v: View, order: seq<Path>, before: LightMap, s: Path)
    requires [] !in order && s != [] && v.Light(s) >= -1
    requires Holds(radius, before, v, order) && s[|s| - 1].LenWalking() <= radius
    ensures var key := s[|s| - 1].Plus(Point(radius, radius));
      Holds(radius, before.Set(key, Max(v.Light(s), before.Get(key))), v, order + [s])
  {
    hide LightsAt;
    var p, centre := s[|s| - 1], Point(radius, radius);
    var key := p.Plus(centre);
    var light := v.Light(s);
    before.GetAfterSet(key, Max(light, before.Get(key)));
    forall q: Point
      ensures before.Set(key, Max(light, before.Get(key))).Get(q.Plus(centre)) == Greatest(LightsAt(v, order + [s], q))
    {
      LightsSnoc(v, order, s, q);
      GreatestWith(LightsAt(v, order, q), light);
      assert q.Plus(centre) == key <==> q == p;
    }
  }

  lemma FinishedWalkArrives(radius: nat, v: View, order: seq<Path>, passed: seq<bool>, p: Point)
    requires Layered(radius, v.trie) && IsWalk(v.trie, order, passed)
    requires forall j :: 0 <= j < |order| ==> passed[j] == (v.Light(order[j]) > 0)
    ensures LightsAt(v, order, p) == v.Arrivals(p.LenWalking() + 1, p)
  {
    forall t: Path | t in v.trie && t[|t| - 1] == p
      ensures |t| == p.LenWalking() + 1 && (v.Visited(t) <==> t in order)
    {
      assert t[|t| - 1].LenWalking() == |t| - 1;
      ShorterPathsFirst(radius, v, order, passed, |order|, t);
      assert order[..|order|] == order;
    }
  }

  /** Whatever order the children are queued in, a finished walk leaves the map of the recursion. */
  lemma WalkLightsTheView(radius: nat, v: View, order: seq<Path>)
    requires v.sight >= 1 && IsTrie(radius, v.trie) && [] !in order
    requires IsWalk(v.trie, order, Answers(v.LookAround(radius), Start(radius), order))
    ensures var seen := Run(v.LookAround(radius), Start(radius), order);
      && seen.size == Start(radius).size && seen.init == -1
      && forall p: Point :: seen.Get(p.Plus(Point(radius, radius))) == v.LightAt(p)
  {
    hide IsTrie, Layered, IsWalk, Run, LetsPass, LightsAt, View.Arrivals, Look, Start;
    TrieIsLayered(radius, v.trie);
    var look := v.LookAround(radius);
    WalkHolds(radius, v, order, |order|);
    assert order[..|order|] == order;
    forall p: Point
      ensures LightsAt(v, order, p) == v.Arrivals(p.LenWalking() + 1, p)
    {
      FinishedWalkArrives(radius, v, order, Answers(look, Start(radius), order), p);
    }
  }
}

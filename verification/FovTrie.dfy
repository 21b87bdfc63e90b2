/** The trie of sight lines of geo.h: what it holds, how it is built, and how it is walked. */
module FovTrie {
  import opened Geometry
  import opened Optional
  import opened LineOfSight

  /** The cells from the root of the trie down to one of its nodes. */
  type Path = seq<Point>

  ghost predicate OnPerimeter(radius: nat, p: Point) {
    p.LenWalking() == radius
  }

  /** lenL2() > radius - 0.5, squared; a radius of 0 leaves -0.5, which every length exceeds. */
  predicate Beyond(radius: nat, p: Point) {
    radius == 0 || 4 * p.LenL2Squared() > (2 * radius - 1) * (2 * radius - 1)
  }

  /** s is a prefix of the line that goes no further than its first point beyond the radius. */
  ghost predicate Admitted(radius: nat, line: Path, s: Path) {
    && 0 < |s|
    && s <= line
    && forall j :: 0 <= j < |s| - 1 ==> !Beyond(radius, s[j])
  }

  ghost predicate InTrie(radius: nat, s: Path) {
    exists end :: OnPerimeter(radius, end) && Admitted(radius, Line(ORIGIN, end), s)
  }

  ghost predicate IsTrie(radius: nat, trie: set<Path>) {
    forall s :: s in trie <==> InTrie(radius, s)
  }

  /** The j-th of the eight perimeter cells that share the offset i along a side. */
  function Endpoint(radius: nat, i: nat, j: nat): Point {
    var (xa: int, ya: int) := if j % 2 == 1 then (radius, i) else (i, radius);
    Point(if j / 2 % 2 == 1 then xa else -xa, if j / 4 % 2 == 1 then ya else -ya)
  }

  /** s comes from one of the lines inserted before the j-th line of round i. */
  ghost predicate Inserted(radius: nat, s: Path, i: nat, j: nat) {
    exists i': nat, j': nat ::
      j' < 8 && (i' < i || (i' == i && j' < j)) && Admitted(radius, Line(ORIGIN, Endpoint(radius, i', j')), s)
  }

  lemma EndpointsArePerimeter(radius: nat, end: Point)
    ensures OnPerimeter(radius, end) <==>
            exists i: nat, j: nat :: i <= radius && j < 8 && end == Endpoint(radius, i, j)
  {
    if OnPerimeter(radius, end) {
      var sx, sy := if end.x > 0 then 2 else 0, if end.y > 0 then 4 else 0;
      if Abs(end.x) == radius {
        assert end == Endpoint(radius, Abs(end.y), 1 + sx + sy);
      } else {
        assert end == Endpoint(radius, Abs(end.x), sx + sy);
      }
    }
  }

  lemma LineStarts(end: Point)
    ensures |Line(ORIGIN, end)| >= 1 && Line(ORIGIN, end)[..1] == [ORIGIN]
  {
    LineEnds(ORIGIN, end);
  }

  lemma EndpointIs(radius: nat, i: nat, j: nat, x: int, y: int)
    requires j % 2 == 1 ==> Abs(x) == radius && Abs(y) == i
    requires j % 2 == 0 ==> Abs(x) == i && Abs(y) == radius
    requires if j / 2 % 2 == 1 then x >= 0 else x <= 0
    requires if j / 4 % 2 == 1 then y >= 0 else y <= 0
    ensures Point(x, y) == Endpoint(radius, i, j)
  {}

  lemma InsertedNext(radius: nat, i: nat, j: nat)
    requires j < 8
    ensures forall s :: Inserted(radius, s, i, j + 1) <==>
                        Inserted(radius, s, i, j) || Admitted(radius, Line(ORIGIN, Endpoint(radius, i, j)), s)
  {
    hide Admitted, Endpoint, Line;
    forall s | Admitted(radius, Line(ORIGIN, Endpoint(radius, i, j)), s)
      ensures Inserted(radius, s, i, j + 1)
    {}
  }

  lemma RoundDone(radius: nat, i: nat)
    ensures forall s :: Inserted(radius, s, i, 8) <==> Inserted(radius, s, i + 1, 0)
  {
    hide Admitted, Endpoint, Line;
  }

  lemma NothingInserted(radius: nat)
    ensures forall s :: !Inserted(radius, s, 0, 0)
  {}

  lemma RootIsInserted(radius: nat)
    ensures InTrie(radius, [ORIGIN])
  {
    var end := Point(radius, 0);
    LineEnds(ORIGIN, end);
    assert Admitted(radius, Line(ORIGIN, end), [ORIGIN]);
  }

  lemma AllInsertedIsTrie(radius: nat)
    ensures forall s :: s == [ORIGIN] || Inserted(radius, s, radius + 1, 0) <==> InTrie(radius, s)
  {
    hide Admitted, OnPerimeter, Endpoint;
    RootIsInserted(radius);
    forall s | InTrie(radius, s)
      ensures Inserted(radius, s, radius + 1, 0)
    {
      var end :| OnPerimeter(radius, end) && Admitted(radius, Line(ORIGIN, end), s);
      EndpointsArePerimeter(radius, end);
    }
    forall s | Inserted(radius, s, radius + 1, 0)
      ensures InTrie(radius, s)
    {
      var i: nat, j: nat :| j < 8 && i <= radius && Admitted(radius, Line(ORIGIN, Endpoint(radius, i, j)), s);
      EndpointsArePerimeter(radius, Endpoint(radius, i, j));
    }
  }

  lemma AppendInjective(s: Path, p: Point, t: Path, q: Point)
    ensures s + [p] == t + [q] <==> s == t && p == q
  {
    assert (s + [p])[..|s|] == s && (t + [q])[..|t|] == t;
    assert (s + [p])[|s|] == p && (t + [q])[|t|] == q;
  }

  // ----- walking the trie -----

  /** A stateful callback takes its state along: it is shown a point and the point above it. */
  type Callback<!S> = (S, Point, Option<Point>) -> (S, bool)

  function Up(s: Path): Path
    requires s != []
  {
    s[..|s| - 1]
  }

  function Above(s: Path): Option<Point> {
    if |s| < 2 then None else Some(s[|s| - 2])
  }

  /** The state after the callback has been called on each path of the order in turn. */
  function Run<S>(blocked: Callback<S>, start: S, order: seq<Path>): S
    requires [] !in order
  {
    if order == [] then start
    else
      var n := |order| - 1;
      blocked(Run(blocked, start, order[..n]), order[n][|order[n]| - 1], Above(order[n])).0
  }

  /** Whether the callback let the walk pass through the k-th path of the order. */
  predicate LetsPass<S>(blocked: Callback<S>, start: S, order: seq<Path>, k: nat)
    requires [] !in order && k < |order|
  {
    !blocked(Run(blocked, start, order[..k]), order[k][|order[k]| - 1], Above(order[k])).1
  }

  lemma RunNothing<S>(blocked: Callback<S>, start: S)
    ensures Run(blocked, start, []) == start
  {}

  lemma RunNext<S>(blocked: Callback<S>, start: S, order: seq<Path>, k: nat)
    requires [] !in order && k < |order|
    ensures var next := blocked(Run(blocked, start, order[..k]), order[k][|order[k]| - 1], Above(order[k]));
      Run(blocked, start, order[..k + 1]) == next.0 && LetsPass(blocked, start, order, k) == !next.1
  {
    assert order[..k + 1][..k] == order[..k];
  }

  lemma LongerOrder<S>(blocked: Callback<S>, start: S, order: seq<Path>, order': seq<Path>)
    requires [] !in order' && order <= order'
    ensures forall k :: 0 <= k < |order| ==>
                        LetsPass(blocked, start, order', k) == LetsPass(blocked, start, order, k)
    ensures forall k :: 0 <= k <= |order| ==> order'[..k] == order[..k]
  {
    assert forall k :: 0 <= k <= |order| ==> order'[..k] == order[..k];
  }

  function Answers<S>(blocked: Callback<S>, start: S, order: seq<Path>): (passed: seq<bool>)
    requires [] !in order
  {
    seq(|order|, k requires 0 <= k < |order| => LetsPass(blocked, start, order, k))
  }

  ghost predicate Opened(order: seq<Path>, passed: seq<bool>, s: Path)
    requires |passed| <= |order|
  {
    exists k :: 0 <= k < |passed| && order[k] == s && passed[k]
  }

  /** A breadth-first visit, each node once, of exactly the nodes all of whose ancestors were passed. */
  ghost predicate IsWalk(trie: set<Path>, order: seq<Path>, passed: seq<bool>) {
    && |passed| == |order|
    && [] !in order
    && (forall k :: 0 <= k < |order| ==> order[k] in trie)
    && (forall j, k :: 0 <= j < k < |order| ==> order[j] != order[k])
    && (forall j, k :: 0 <= j < k < |order| ==> |order[j]| <= |order[k]|)
    && (forall s {:trigger s in order} | s in trie && s != [] ::
          s in order <==> |s| == 1 || Opened(order, passed, Up(s)))
  }

  class FovNode {
    const point: Point
    const parent: FovNode?
    ghost const path: Path
    var children: seq<FovNode>

    constructor (point: Point, parent: FovNode?)
      ensures this.point == point && this.parent == parent && children == []
      ensures path == (if parent == null then [] else parent.path) + [point]
    {
      this.point := point;
      this.parent := parent;
      this.path := (if parent == null then [] else parent.path) + [point];
      this.children := [];
    }
  }

  class Fov {
    const radius: nat
    const root: FovNode
    ghost var nodes: set<FovNode>
    var cache: seq<FovNode>

    /** Parent and child links agree, and no two nodes stand for the same path. */
    ghost predicate Valid()
      reads this`nodes, nodes`children
    {
      && root in nodes && root.parent == null && root.path == [ORIGIN]
      && (forall n {:trigger n.path} | n in nodes :: n.path != [] && n.path[|n.path| - 1] == n.point)
      && (forall n {:trigger n.parent} | n in nodes && n.parent == null :: n == root)
      && (forall n {:trigger n.parent} | n in nodes && n.parent != null ::
            n.parent in nodes && n in n.parent.children && n.path == n.parent.path + [n.point])
      && (forall n, c {:trigger c in n.children} | n in nodes && c in n.children :: c in nodes && c.parent == n)
      && (forall n, i, j | n in nodes && 0 <= i < j < |n.children| ::
            n.children[i].point != n.children[j].point)
      && (forall n, m | n in nodes && m in nodes && n.path == m.path :: n == m)
    }

    ghost function Paths(): set<Path>
      reads this`nodes
    {
      set n | n in nodes :: n.path
    }

    constructor (r: nat)
      ensures Valid() && fresh(nodes) && radius == r && cache == []
      ensures IsTrie(radius, Paths())
    {
      radius := r;
      root := new FovNode(ORIGIN, null);
      cache := [];
      new;
      nodes := {root};
      hide Valid, Admitted, Inserted, Endpoint, Line, Steps, InTrie;
      RootAlone();
      NothingInserted(radius);
      for i := 0 to radius + 1
        invariant Valid() && fresh(nodes) && cache == []
        invariant forall s :: s in Paths() <==> s == [ORIGIN] || Inserted(radius, s, i, 0)
      {
        for j := 0 to 8
          invariant Valid() && fresh(nodes) && cache == []
          invariant forall s :: s in Paths() <==> s == [ORIGIN] || Inserted(radius, s, i, j)
        {
          var (xa: int, ya: int) := if j % 2 == 1 then (radius, i) else (i, radius);
          var xb := if j / 2 % 2 == 1 then xa else -xa;
          var yb := if j / 4 % 2 == 1 then ya else -ya;
          EndpointIs(radius, i, j, xb, yb);
          InsertLineTo(Point(xb, yb));
          InsertedNext(radius, i, j);
        }
        RoundDone(radius, i);
      }
      AllInsertedIsTrie(radius);
    }

    lemma RootAlone()
      requires nodes == {root} && root.parent == null && root.path == [ORIGIN]
      requires root.point == ORIGIN && root.children == []
      ensures Valid() && Paths() == {[ORIGIN]}
    {}

    lemma RootPath()
      requires Valid()
      ensures root in nodes && root.path == [ORIGIN] && root.path in Paths()
    {}

    lemma NodePoint(n: FovNode)
      requires Valid() && n in nodes
      ensures n.path != [] && n.path[|n.path| - 1] == n.point
    {}

    lemma PathIsNew(node: FovNode, next: Point)
      requires Valid() && node in nodes
      requires forall c | c in node.children :: c.point != next
      ensures forall m | m in nodes :: m.path != node.path + [next]
    {
      forall m | m in nodes
        ensures m.path != node.path + [next]
      {
        NodePoint(node);
        if m.parent != null {
          AppendInjective(m.parent.path, m.point, node.path, next);
          assert m.parent != node ==> m.parent.path != node.path;
        }
      }
    }

    method InsertLineTo(end: Point)
      requires Valid()
      modifies this`nodes, nodes
      ensures Valid() && nodes >= old(nodes) && fresh(nodes - old(nodes))
      ensures forall s :: s in Paths() <==> s in old(Paths()) || Admitted(radius, Line(ORIGIN, end), s)
    {
      hide Valid, Admitted, Line;
      var line := LOS(ORIGIN, end);
      LineStarts(end);
      RootPath();
      TrieUpdate(root, line, 0);
    }

    /** Thread one line into the subtree of a node that it has already reached. */
    method TrieUpdate(node: FovNode, line: Path, i: nat)
      requires Valid() && node in nodes
      requires i < |line| && node.path == line[..i + 1]
      requires forall k :: 0 < k <= i + 1 ==> line[..k] in Paths()
      requires forall j :: 0 <= j < i ==> !Beyond(radius, line[j])
      modifies this`nodes, nodes
      ensures Valid() && nodes >= old(nodes) && fresh(nodes - old(nodes))
      ensures forall s :: s in Paths() <==> s in old(Paths()) || Admitted(radius, line, s)
      decreases |line| - i
    {
      hide Valid, Paths, Beyond;
      NodePoint(node);
      assert line[i] == node.point;
      forall s | Beyond(radius, line[i]) || i + 1 == |line|
        ensures Admitted(radius, line, s) ==> s in Paths()
      {
        if Admitted(radius, line, s) {
          assert s == line[..|s|];
        }
      }
      if Beyond(radius, node.point) {
        return;
      }
      if !(i + 1 < |line|) {
        return;
      }
      var next := line[i + 1];
      var child := FindOrAddChild(node, next);
      assert child.path == line[..i + 2];
      assert Admitted(radius, line, child.path);
      TrieUpdate(child, line, i + 1);
    }

    method FindOrAddChild(node: FovNode, next: Point) returns (child: FovNode)
      requires Valid() && node in nodes
      modifies this`nodes, node
      ensures Valid() && nodes >= old(nodes) && fresh(nodes - old(nodes))
      ensures child in nodes && child.parent == node && child.point == next
      ensures child.path == node.path + [next]
      ensures Paths() == old(Paths()) + {child.path}
    {
      for k := 0 to |node.children|
        invariant forall j :: 0 <= j < k ==> node.children[j].point != next
      {
        if node.children[k].point == next {
          child := node.children[k];
          assert child in node.children;
          assert child.parent == node;
          return;
        }
      }
      PathIsNew(node, next);
      child := new FovNode(next, node);
      node.children := node.children + [child];
      nodes := nodes + {child};
    }

    // ----- the walk -----

    static ghost function PathsOf(queue: seq<FovNode>): (order: seq<Path>) {
      seq(|queue|, k requires 0 <= k < |queue| => queue[k].path)
    }

    /** The queue after |passed| of its nodes have been shown to the callback. */
    ghost predicate Queued(queue: seq<FovNode>, passed: seq<bool>)
      reads this`nodes
    {
      && |passed| <= |queue|
      && AllIn(queue, nodes) && Distinct(queue)
      && InLevels(queue, |passed|)
      && (forall n | n in nodes :: Reached(queue, passed, n))
    }

    static ghost predicate AllIn(queue: seq<FovNode>, nodes: set<FovNode>) {
      forall k :: 0 <= k < |queue| ==> queue[k] in nodes
    }

    static ghost predicate Distinct(queue: seq<FovNode>) {
      forall j, k :: 0 <= j < k < |queue| ==> queue[j] != queue[k]
    }

    ghost predicate Reached(queue: seq<FovNode>, passed: seq<bool>, n: FovNode)
      requires |passed| <= |queue|
    {
      n in queue <==> n == root || Expanded(queue, passed, n.parent)
    }

    /** Depths never fall along the queue, and none exceeds the depth of the next node by more than one. */
    static ghost predicate InLevels(queue: seq<FovNode>, next: nat) {
      && (forall j, k :: 0 <= j < k < |queue| ==> |queue[j].path| <= |queue[k].path|)
      && (next < |queue| ==> forall k :: 0 <= k < |queue| ==> |queue[k].path| <= |queue[next].path| + 1)
    }

    static lemma LevelsStep(queue: seq<FovNode>, next: nat, more: seq<FovNode>)
      requires next < |queue| && InLevels(queue, next)
      requires forall k :: 0 <= k < |more| ==> |more[k].path| == |queue[next].path| + 1
      ensures InLevels(queue, next + 1) && InLevels(queue + more, next + 1)
    {}

    static ghost predicate Expanded(queue: seq<FovNode>, passed: seq<bool>, n: FovNode?)
      requires |passed| <= |queue|
    {
      exists k :: 0 <= k < |passed| && queue[k] == n && passed[k]
    }

    lemma QueueStart()
      requires Valid()
      ensures Queued([root], [])
    {
      assert forall n :: n in [root] <==> n == root;
    }

    lemma QueueStep(queue: seq<FovNode>, passed: seq<bool>, ok: bool)
      requires Valid() && Queued(queue, passed) && |passed| < |queue|
      ensures Queued(if ok then queue + queue[|passed|].children else queue, passed + [ok])
    {
      hide Valid, Reached, InLevels, AllIn, Distinct;
      var node := queue[|passed|];
      var queue' := if ok then queue + node.children else queue;
      QueueFront(queue, passed);
      ChildrenAreNew(queue, passed);
      LevelsStep(queue, |passed|, node.children);
      forall n | n in nodes
        ensures Reached(queue', passed + [ok], n)
      {
        assert Reached(queue, passed, n);
        ReachedStep(queue, passed, ok, n);
      }
      AppendDistinct(queue, node.children, nodes);
    }

    static lemma AppendDistinct(queue: seq<FovNode>, more: seq<FovNode>, nodes: set<FovNode>)
      requires AllIn(queue, nodes) && Distinct(queue)
      requires AllIn(more, nodes) && Distinct(more)
      requires forall k :: 0 <= k < |more| ==> more[k] !in queue
      ensures AllIn(queue + more, nodes) && Distinct(queue + more)
    {}

    lemma ReachedStep(queue: seq<FovNode>, passed: seq<bool>, ok: bool, n: FovNode)
      requires Valid() && |passed| < |queue| && queue[|passed|] in nodes && n in nodes
      requires Reached(queue, passed, n)
      ensures Reached(if ok then queue + queue[|passed|].children else queue, passed + [ok], n)
    {
      var node := queue[|passed|];
      var queue' := if ok then queue + node.children else queue;
      ExpandedStep(queue, queue', passed, ok, n.parent);
      assert n in node.children <==> n.parent == node;
      assert n in queue' <==> n in queue || (ok && n in node.children);
    }

    static lemma ExpandedStep(queue: seq<FovNode>, queue': seq<FovNode>, passed: seq<bool>, ok: bool, n: FovNode?)
      requires |passed| < |queue| && queue <= queue'
      ensures Expanded(queue', passed + [ok], n) <==> Expanded(queue, passed, n) || (ok && n == queue[|passed|])
    {
      var passed' := passed + [ok];
      if ok && n == queue[|passed|] {
        assert queue'[|passed|] == n && passed'[|passed|];
      }
      if Expanded(queue, passed, n) {
        var k :| 0 <= k < |passed| && queue[k] == n && passed[k];
        assert queue'[k] == n && passed'[k];
      }
    }

    lemma ChildrenAreNew(queue: seq<FovNode>, passed: seq<bool>)
      requires Valid() && Queued(queue, passed) && |passed| < |queue|
      ensures var more := queue[|passed|].children;
        && AllIn(more, nodes) && Distinct(more)
        && (forall k :: 0 <= k < |more| ==> more[k] !in queue && |more[k].path| == |queue[|passed|].path| + 1)
    {
      var node := queue[|passed|];
      assert !Expanded(queue, passed, node);
      forall c | c in node.children
        ensures c in nodes && c !in queue && |c.path| == |node.path| + 1
      {
        assert c.parent == node;
        assert Reached(queue, passed, c);
      }
    }

    lemma QueueEnd(queue: seq<FovNode>, order: seq<Path>, passed: seq<bool>)
      requires Valid() && Queued(queue, passed) && |passed| == |queue| == |order|
      requires forall k :: 0 <= k < |queue| ==> order[k] == queue[k].path
      ensures IsWalk(Paths(), order, passed)
    {
      forall s | s in Paths()
        ensures s in order <==> |s| == 1 || Opened(order, passed, Up(s))
      {
        var n :| n in nodes && n.path == s;
        assert Reached(queue, passed, n);
        assert s in order <==> n in queue;
      }
    }

    lemma ShownAs(n: FovNode)
      requires Valid() && n in nodes
      ensures n.path != [] && n.path[|n.path| - 1] == n.point
      ensures Above(n.path) == if n.parent == null then None else Some(n.parent.point)
    {
      NodePoint(n);
      if n.parent != null {
        NodePoint(n.parent);
      }
    }

    /** Calls the callback on each node it reaches and queues the children of those it may pass. */
    method FieldOfVision<S>(start: S, blocked: Callback<S>) returns (s: S)
      requires Valid()
      modifies this`cache
      ensures [] !in PathsOf(cache) && s == Run(blocked, start, PathsOf(cache))
      ensures IsWalk(Paths(), PathsOf(cache), Answers(blocked, start, PathsOf(cache)))
    {
      hide Valid, Queued, InLevels, Run, LetsPass, Above;
      s := start;
      cache := [root];
      ghost var passed := [];
      ghost var done := {};
      QueueStart();
      RootPath();
      RunNothing(blocked, start);
      var i := 0;
      while i < |cache|
        invariant Valid() && |passed| == i <= |cache| && Queued(cache, passed)
        invariant [] !in PathsOf(cache) && s == Run(blocked, start, PathsOf(cache)[..i])
        invariant forall k :: 0 <= k < i ==> passed[k] == LetsPass(blocked, start, PathsOf(cache), k)
        invariant done <= nodes && forall n :: n in done <==> n in cache[..i]
        decreases nodes - done
      {
        var node := cache[i];
        QueueFront(cache, passed);
        ShownAs(node);
        ghost var shown, order := cache[..i], PathsOf(cache);
        var prev := if node.parent == null then None else Some(node.parent.point);
        var (s', stop) := blocked(s, node.point, prev);
        RunNext(blocked, start, order, i);
        s := s';
        QueueStep(cache, passed, !stop);
        if !stop {
          cache := cache + node.children;
        }
        assert cache[..i + 1] == shown + [node];
        NoEmptyPath(cache, passed + [!stop]);
        LongerOrder(blocked, start, order, PathsOf(cache));
        passed := passed + [!stop];
        done := done + {node};
        i := i + 1;
      }
      assert PathsOf(cache)[..i] == PathsOf(cache);
      assert passed == Answers(blocked, start, PathsOf(cache));
      QueueEnd(cache, PathsOf(cache), passed);
    }

    lemma QueueFront(queue: seq<FovNode>, passed: seq<bool>)
      requires Valid() && Queued(queue, passed) && |passed| < |queue|
      ensures queue[|passed|] in nodes && queue[|passed|] !in queue[..|passed|]
    {}

    lemma NoEmptyPath(queue: seq<FovNode>, passed: seq<bool>)
      requires Valid() && Queued(queue, passed)
      ensures [] !in PathsOf(queue)
    {
      assert forall k :: 0 <= k < |queue| ==> queue[k].path != [];
    }
  }
}

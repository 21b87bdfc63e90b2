/** The symmetries of a line, carried up to the trie of sight lines and to the light on a board. */
module Mirror {
  import opened Geometry
  import opened LineOfSight
  import opened FovTrie
  import opened Lighting

  /** One of the eight symmetries that leave the viewer where it is. */
  type Turn = t: Symmetry | t.shift == ORIGIN
    witness Symmetry(false, false, false, ORIGIN)

  /** The symmetry that takes everything back. */
  function Inverse(t: Turn): Turn {
    if t.swap then Symmetry(t.flipY, t.flipX, true, ORIGIN) else t
  }

  lemma InverseUndoes(t: Turn, p: Point)
    ensures Inverse(t).Apply(t.Apply(p)) == p && t.Apply(Inverse(t).Apply(p)) == p
  {}

  lemma ImageUndone(t: Turn, s: Path)
    ensures t.Image(Inverse(t).Image(s)) == s
  {
    hide Symmetry.Apply;
    forall i | 0 <= i < |s|
      ensures t.Image(Inverse(t).Image(s))[i] == s[i]
    {
      InverseUndoes(t, s[i]);
    }
  }

  lemma TurnKeepsLengths(t: Turn, p: Point)
    ensures t.Apply(p).LenWalking() == p.LenWalking() && t.Apply(p).LenL2Squared() == p.LenL2Squared()
  {
    assert (-p.x) * (-p.x) == p.x * p.x && (-p.y) * (-p.y) == p.y * p.y;
  }

  lemma TurnKeepsDiagonals(t: Turn, p: Point, q: Point)
    ensures t.Apply(p).x != t.Apply(q).x && t.Apply(p).y != t.Apply(q).y <==> p.x != q.x && p.y != q.y
  {}

  lemma PrefixMirrors(t: Turn, s: Path, line: Path)
    requires s <= line
    ensures t.Image(s) <= t.Image(line)
  {
    hide Symmetry.Apply;
  }

  lemma OriginStays(t: Turn)
    ensures t.Apply(ORIGIN) == ORIGIN
  {}

  lemma LineMirrors(t: Turn, end: Point)
    ensures Line(ORIGIN, t.Apply(end)) == t.Image(Line(ORIGIN, end))
  {
    hide Line, Symmetry.Image, Symmetry.Apply;
    OriginStays(t);
    LineCommutesWithSymmetry(t, ORIGIN, end);
  }

  lemma BeyondMirrors(radius: nat, t: Turn, s: Path)
    ensures |t.Image(s)| == |s|
    ensures forall j | 0 <= j < |s| :: Beyond(radius, t.Image(s)[j]) == Beyond(radius, s[j])
  {
    hide Symmetry.Apply, Point.LenL2Squared;
    forall j | 0 <= j < |s|
      ensures Beyond(radius, t.Image(s)[j]) == Beyond(radius, s[j])
    {
      TurnKeepsLengths(t, s[j]);
    }
  }

  lemma AdmittedMirrors(radius: nat, t: Turn, end: Point, s: Path)
    requires Admitted(radius, Line(ORIGIN, end), s)
    ensures Admitted(radius, Line(ORIGIN, t.Apply(end)), t.Image(s))
  {
    hide Line, Symmetry.Apply, Symmetry.Image, Beyond;
    LineMirrors(t, end);
    PrefixMirrors(t, s, Line(ORIGIN, end));
    BeyondMirrors(radius, t, s);
  }

  /** The trie of sight lines is its own mirror image. */
  lemma TrieIsSymmetric(radius: nat, trie: set<Path>, t: Turn, s: Path)
    requires IsTrie(radius, trie)
    ensures t.Image(s) in trie <==> s in trie
  {
    hide Admitted, Symmetry.Image;
    ImageUndone(Inverse(t), s);
    assert Inverse(Inverse(t)) == t;
    forall u: Turn, r: Path | r in trie
      ensures u.Image(r) in trie
    {
      var end :| OnPerimeter(radius, end) && Admitted(radius, Line(ORIGIN, end), r);
      AdmittedMirrors(radius, u, end, r);
      TurnKeepsLengths(u, end);
    }
    assert s in trie ==> t.Image(s) in trie;
    assert t.Image(s) in trie ==> Inverse(t).Image(t.Image(s)) in trie;
  }

  /** What the second viewer looks at is the mirror image of what the first looks at. */
  ghost predicate Mirrors(t: Turn, v: View, w: View) {
    v.sight == w.sight && v.trie == w.trie && forall p: Point {:trigger v.FlagsAt(p)} :: w.FlagsAt(t.Apply(p)) == v.FlagsAt(p)
  }

  lemma MirroredFlags(t: Turn, v: View, w: View, p: Point)
    requires Mirrors(t, v, w)
    ensures w.FlagsAt(t.Apply(p)) == v.FlagsAt(p)
  {}

  lemma UpMirrors(t: Turn, s: Path)
    requires s != []
    ensures |t.Image(s)| == |s| && t.Image(s)[|s| - 1] == t.Apply(s[|s| - 1])
    ensures |s| > 1 ==> Up(t.Image(s)) == t.Image(Up(s)) && t.Image(s)[|s| - 2] == t.Apply(s[|s| - 2])
  {}

  lemma {:induction false} PathLightMirrors(radius: nat, t: Turn, v: View, w: View, s: Path)
    requires IsTrie(radius, v.trie) && Mirrors(t, v, w) && s != []
    ensures t.Image(s) != [] && w.Light(t.Image(s)) == v.Light(s) && w.Visited(t.Image(s)) == v.Visited(s)
    decreases |s|, 0
  {
    hide IsTrie, Mirrors, View.FlagsAt, View.Best, Symmetry.Image, Symmetry.Apply;
    UpMirrors(t, s);
    MirroredTrie(t, v, w);
    if |s| > 1 {
      var p, above := s[|s| - 1], s[|s| - 2];
      PathLightMirrors(radius, t, v, w, Up(s));
      BestMirrors(radius, t, v, w, |s| - 1, above);
      MirroredFlags(t, v, w, p);
      TurnKeepsDiagonals(t, p, above);
    }
  }

  lemma {:induction false} BestMirrors(radius: nat, t: Turn, v: View, w: View, n: nat, p: Point)
    requires IsTrie(radius, v.trie) && Mirrors(t, v, w)
    ensures w.Best(n, t.Apply(p)) == v.Best(n, p)
    decreases n, 1
  {
    hide IsTrie, Mirrors, View.Light, View.Visited, Symmetry.Image, Symmetry.Apply, Inverse;
    assert w.trie == v.trie by { MirroredTrie(t, v, w); }
    forall s: Path | |s| == n > 0
      ensures |t.Image(s)| == n && (t.Image(s) in v.trie <==> s in v.trie)
      ensures t.Image(s)[n - 1] == t.Apply(p) <==> s[n - 1] == p
      ensures w.Light(t.Image(s)) == v.Light(s) && w.Visited(t.Image(s)) == v.Visited(s)
    {
      UpMirrors(t, s);
      InverseUndoes(t, p);
      InverseUndoes(t, s[n - 1]);
      TrieIsSymmetric(radius, v.trie, t, s);
      PathLightMirrors(radius, t, v, w, s);
    }
    forall r: Path | |r| == n > 0
      ensures t.Image(Inverse(t).Image(r)) == r && |Inverse(t).Image(r)| == n
    {
      ImageUndone(t, r);
      UpMirrors(Inverse(t), r);
    }
    assert w.Arrivals(n, t.Apply(p)) == v.Arrivals(n, p);
  }

  lemma MirroredTrie(t: Turn, v: View, w: View)
    requires Mirrors(t, v, w)
    ensures v.trie == w.trie && v.sight == w.sight
  {}

  /** On a mirrored board everything is lit as in the mirror. */
  lemma LightMirrors(radius: nat, t: Turn, v: View, w: View)
    requires IsTrie(radius, v.trie) && Mirrors(t, v, w)
    ensures forall p: Point {:trigger v.LightAt(p)} :: w.LightAt(t.Apply(p)) == v.LightAt(p)
  {
    hide IsTrie, Mirrors, View.Best, Symmetry.Apply;
    forall p: Point
      ensures w.LightAt(t.Apply(p)) == v.LightAt(p)
    {
      TurnKeepsLengths(t, p);
      BestMirrors(radius, t, v, w, p.LenWalking() + 1, p);
    }
  }
}

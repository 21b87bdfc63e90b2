/** The Tran-Thong line walk of geo.cpp. */
module LineOfSight {
  import opened Geometry

  /** Rows gained after i of major steps: i*minor/major rounded to nearest, halves towards the start. */
  function MinorSteps(major: nat, minor: nat, i: nat): int {
    if major == 0 then 0 else (2 * (i * minor) + major - 1) / (2 * major)
  }

  /** k is the row nearest to the ideal line at step i; an exact half belongs to the lower row. */
  ghost predicate Nearest(major: nat, minor: nat, i: nat, k: int) {
    0 - major < 2 * (i * minor - k * major) <= major
  }

  lemma NearestIffMinorSteps(major: nat, minor: nat, i: nat, k: int)
    requires major > 0
    ensures Nearest(major, minor, i, k) <==> k == MinorSteps(major, minor, i)
  {
    var n, d := 2 * (i * minor) + major - 1, 2 * major;
    var q := n / d;
    assert n == d * q + n % d && 0 <= n % d < d;
    assert d * q == 2 * (q * major);
    if k < q {
      MulGap(k, q, major);
    } else if q < k {
      MulGap(q, k, major);
    }
  }

  /** n cells from one coordinate in the direction of another. */
  function Toward(from: int, to: int, n: int): int {
    if to < from then from - n else from + n
  }

  /** The i-th cell of the line from a to b. */
  function Cell(a: Point, b: Point, i: nat): Point {
    var dx, dy := Abs(a.x - b.x), Abs(a.y - b.y);
    if dx >= dy then
      Point(Toward(a.x, b.x, i), Toward(a.y, b.y, MinorSteps(dx, dy, i)))
    else
      Point(Toward(a.x, b.x, MinorSteps(dy, dx, i)), Toward(a.y, b.y, i))
  }

  function Steps(a: Point, b: Point): nat {
    b.Minus(a).LenWalking()
  }

  function Line(a: Point, b: Point): seq<Point> {
    seq(Steps(a, b) + 1, (i: nat) => Cell(a, b, i))
  }

  /** The error accumulator after i steps, which the loop of LOS keeps in [0, major). */
  ghost predicate Accumulates(major: nat, minor: nat, i: nat, test: int, k: int) {
    && test == major / 2 - i * minor + k * major
    && (major > 0 ==> 0 <= test < major)
  }

  lemma AccumulatorStart(major: nat, minor: nat)
    ensures Accumulates(major, minor, 0, major / 2, 0)
  {}

  lemma AccumulatorStep(major: nat, minor: nat, i: nat, test: int, k: int)
    requires major > 0 && minor <= major && Accumulates(major, minor, i, test, k)
    ensures Accumulates(major, minor, i + 1,
                        if test < minor then test - minor + major else test - minor,
                        if test < minor then k + 1 else k)
  {
    assert (i + 1) * minor == i * minor + minor;
    assert (k + 1) * major == k * major + major;
  }

  lemma AccumulatorIsNearest(major: nat, minor: nat, i: nat, test: int, k: int)
    requires Accumulates(major, minor, i, test, k)
    ensures major > 0 ==> k == MinorSteps(major, minor, i)
  {
    if major > 0 {
      NearestIffMinorSteps(major, minor, i, k);
    }
  }

  /** Where the walk stands once its accumulator has gained k rows in i steps. */
  lemma AccumulatedCell(a: Point, b: Point, i: nat, test: int, k: int)
    ensures var dx, dy := Abs(a.x - b.x), Abs(a.y - b.y);
      if dx >= dy then
        Accumulates(dx, dy, i, test, k) && i <= dx ==>
          Cell(a, b, i) == Point(Toward(a.x, b.x, i), if dx == 0 then a.y else Toward(a.y, b.y, k))
      else
        Accumulates(dy, dx, i, test, k) ==>
          Cell(a, b, i) == Point(Toward(a.x, b.x, k), Toward(a.y, b.y, i))
  {
    var dx, dy := Abs(a.x - b.x), Abs(a.y - b.y);
    if dx >= dy {
      if Accumulates(dx, dy, i, test, k) {
        AccumulatorIsNearest(dx, dy, i, test, k);
      }
    } else if Accumulates(dy, dx, i, test, k) {
      AccumulatorIsNearest(dy, dx, i, test, k);
    }
  }

  lemma LineIs(a: Point, b: Point, cells: seq<Point>)
    requires |cells| == Steps(a, b) + 1
    requires forall j: nat | j < |cells| :: cells[j] == Cell(a, b, j)
    ensures cells == Line(a, b)
  {
    hide Cell;
  }

  method LOS(a: Point, b: Point) returns (result: seq<Point>)
    ensures result == Line(a, b)
  {
    hide MinorSteps, Accumulates, Cell, Line;
    var xDiff, yDiff := Abs(a.x - b.x), Abs(a.y - b.y);
    var xSign := if b.x < a.x then -1 else 1;
    var ySign := if b.y < a.y then -1 else 1;
    var size := Max(xDiff, yDiff) + 1;
    result := [a];
    var test: int := 0;
    var current := a;
    ghost var k := 0;
    if xDiff >= yDiff {
      test := (xDiff + test) / 2;
      AccumulatorStart(xDiff, yDiff);
      AccumulatedCell(a, b, 0, test, k);
      for i := 0 to xDiff
        invariant Accumulates(xDiff, yDiff, i, test, k)
        invariant current == Point(Toward(a.x, b.x, i), Toward(a.y, b.y, k))
        invariant |result| == i + 1 && forall j: nat | j <= i :: result[j] == Cell(a, b, j)
      {
        AccumulatorStep(xDiff, yDiff, i, test, k);
        current := Point(current.x + xSign, current.y);
        test := test - yDiff;
        if test < 0 {
          current := Point(current.x, current.y + ySign);
          test := test + xDiff;
          k := k + 1;
        }
        AccumulatedCell(a, b, i + 1, test, k);
        result := result + [current];
      }
    } else {
      test := (yDiff + test) / 2;
      AccumulatorStart(yDiff, xDiff);
      AccumulatedCell(a, b, 0, test, k);
      for i := 0 to yDiff
        invariant Accumulates(yDiff, xDiff, i, test, k)
        invariant current == Point(Toward(a.x, b.x, k), Toward(a.y, b.y, i))
        invariant |result| == i + 1 && forall j: nat | j <= i :: result[j] == Cell(a, b, j)
      {
        AccumulatorStep(yDiff, xDiff, i, test, k);
        current := Point(current.x, current.y + ySign);
        test := test - xDiff;
        if test < 0 {
          current := Point(current.x + xSign, current.y);
          test := test + yDiff;
          k := k + 1;
        }
        AccumulatedCell(a, b, i + 1, test, k);
        result := result + [current];
      }
    }
    assert |result| == size;
    LineIs(a, b, result);
  }

  // ----- shape of the line -----

  lemma MinorStepsAtEnds(major: nat, minor: nat)
    requires minor <= major
    ensures MinorSteps(major, minor, 0) == 0
    ensures MinorSteps(major, minor, major) == minor
  {
    if major > 0 {
      NearestIffMinorSteps(major, minor, 0, 0);
      assert major * minor == minor * major;
      NearestIffMinorSteps(major, minor, major, minor);
    }
  }

  lemma MinorStepsAdvance(major: nat, minor: nat, i: nat)
    requires minor <= major
    ensures MinorSteps(major, minor, i) <= MinorSteps(major, minor, i + 1) <= MinorSteps(major, minor, i) + 1
  {
    if major > 0 {
      hide MinorSteps, IsTie;
      var k := MinorSteps(major, minor, i);
      NearestIffMinorSteps(major, minor, i, k);
      assert (i + 1) * minor == i * minor + minor;
      assert (k + 1) * major == k * major + major;
      NearestIffMinorSteps(major, minor, i + 1, k);
      NearestIffMinorSteps(major, minor, i + 1, k + 1);
    }
  }

  lemma {:induction false} MinorStepsBounded(major: nat, minor: nat, i: nat)
    requires minor <= major
    ensures 0 <= MinorSteps(major, minor, i) <= i
  {
    MinorStepsAtEnds(major, minor);
    if i > 0 {
      MinorStepsBounded(major, minor, i - 1);
      MinorStepsAdvance(major, minor, i - 1);
    }
  }

  /** One step of a line: a full step on the major axis, none or one on the minor axis. */
  ghost predicate IsStep(a: Point, b: Point, p: Point, q: Point) {
    var nextX, nextY := Toward(p.x, p.x + b.x - a.x, 1), Toward(p.y, p.y + b.y - a.y, 1);
    if Abs(a.x - b.x) >= Abs(a.y - b.y) then
      q.x == nextX && (q.y == p.y || q.y == nextY)
    else
      q.y == nextY && (q.x == p.x || q.x == nextX)
  }

  /** 2 * |minor offset * major length - i * minor length| <= major length. */
  ghost predicate WithinHalfCell(a: Point, b: Point, i: nat, p: Point) {
    var dx, dy := Abs(a.x - b.x), Abs(a.y - b.y);
    if dx >= dy then
      2 * Abs(Abs(p.y - a.y) * dx - i * dy) <= dx
    else
      2 * Abs(Abs(p.x - a.x) * dy - i * dx) <= dy
  }

  lemma CellIsDigital(a: Point, b: Point, i: nat)
    requires i <= Steps(a, b)
    ensures i < Steps(a, b) ==> IsStep(a, b, Cell(a, b, i), Cell(a, b, i + 1))
    ensures WithinHalfCell(a, b, i, Cell(a, b, i))
  {
    hide MinorSteps;
    var dx, dy := Abs(a.x - b.x), Abs(a.y - b.y);
    var major, minor := Max(dx, dy), Min(dx, dy);
    var k := MinorSteps(major, minor, i);
    MinorStepsBounded(major, minor, i);
    MinorStepsAdvance(major, minor, i);
    if major > 0 {
      NearestIffMinorSteps(major, minor, i, k);
      assert 2 * Abs(k * major - i * minor) <= major;
    }
  }

  lemma LineEnds(a: Point, b: Point)
    ensures Cell(a, b, 0) == a && Cell(a, b, Steps(a, b)) == b
  {
    hide MinorSteps;
    var dx, dy := Abs(a.x - b.x), Abs(a.y - b.y);
    MinorStepsAtEnds(Max(dx, dy), Min(dx, dy));
  }

  /** The promise of geo.cpp for every pair of endpoints. */
  lemma LineIsDigitalSegment(a: Point, b: Point)
    ensures |Line(a, b)| == Max(Abs(a.x - b.x), Abs(a.y - b.y)) + 1
    ensures Line(a, b)[0] == a && Line(a, b)[|Line(a, b)| - 1] == b
    ensures forall i :: 0 <= i < Steps(a, b) ==> IsStep(a, b, Line(a, b)[i], Line(a, b)[i + 1])
    ensures forall i :: 0 <= i <= Steps(a, b) ==> WithinHalfCell(a, b, i, Line(a, b)[i])
  {
    hide Cell, IsStep, WithinHalfCell;
    LineEnds(a, b);
    forall i: nat | i <= Steps(a, b)
      ensures i < Steps(a, b) ==> IsStep(a, b, Cell(a, b, i), Cell(a, b, i + 1))
      ensures WithinHalfCell(a, b, i, Cell(a, b, i))
    {
      CellIsDigital(a, b, i);
    }
  }

  // ----- symmetries of the plane -----

  function MirrorX(p: Point): Point { Point(-p.x, p.y) }

  function MirrorY(p: Point): Point { Point(p.x, -p.y) }

  function Transpose(p: Point): Point { Point(p.y, p.x) }

  /** Any of the eight reflections and transpositions, followed by a translation. */
  datatype Symmetry = Symmetry(flipX: bool, flipY: bool, swap: bool, shift: Point) {
    function Apply(p: Point): Point {
      var p := if flipX then MirrorX(p) else p;
      var p := if flipY then MirrorY(p) else p;
      var p := if swap then Transpose(p) else p;
      p.Plus(shift)
    }

    function Image(ps: seq<Point>): seq<Point> {
      seq(|ps|, i requires 0 <= i < |ps| => Apply(ps[i]))
    }
  }

  lemma FlatLine(major: nat, i: nat)
    ensures MinorSteps(major, 0, i) == 0
  {
    MinorStepsBounded(major, 0, i);
    if major > 0 {
      NearestIffMinorSteps(major, 0, i, 0);
    }
  }

  lemma DiagonalLine(major: nat, i: nat)
    requires i <= major
    ensures MinorSteps(major, major, i) == i
  {
    if major > 0 {
      NearestIffMinorSteps(major, major, i, i);
    }
  }

  lemma CellCommutesWithMirror(a: Point, b: Point, i: nat)
    requires i <= Steps(a, b)
    ensures Steps(MirrorX(a), MirrorX(b)) == Steps(a, b)
    ensures Cell(MirrorX(a), MirrorX(b), i) == MirrorX(Cell(a, b, i))
  {
    hide MinorSteps;
    FlatLine(Steps(a, b), i);
  }

  lemma CellCommutesWithTranspose(a: Point, b: Point, i: nat)
    requires i <= Steps(a, b)
    ensures Steps(Transpose(a), Transpose(b)) == Steps(a, b)
    ensures Cell(Transpose(a), Transpose(b), i) == Transpose(Cell(a, b, i))
  {
    hide MinorSteps;
    DiagonalLine(Steps(a, b), i);
  }

  lemma CellCommutesWithShift(a: Point, b: Point, s: Point, i: nat)
    requires i <= Steps(a, b)
    ensures Steps(a.Plus(s), b.Plus(s)) == Steps(a, b)
    ensures Cell(a.Plus(s), b.Plus(s), i) == Cell(a, b, i).Plus(s)
  {
    hide MinorSteps;
  }

  lemma CellCommutesWithSymmetry(t: Symmetry, a: Point, b: Point, i: nat)
    requires i <= Steps(a, b)
    ensures Steps(t.Apply(a), t.Apply(b)) == Steps(a, b)
    ensures Cell(t.Apply(a), t.Apply(b), i) == t.Apply(Cell(a, b, i))
  {
    hide Cell, Steps;
    var (a1, b1) := if t.flipX then (MirrorX(a), MirrorX(b)) else (a, b);
    CellCommutesWithMirror(a, b, i);
    var (a2, b2) := if t.flipY then (MirrorY(a1), MirrorY(b1)) else (a1, b1);
    CellCommutesWithTranspose(a1, b1, i);
    CellCommutesWithMirror(Transpose(a1), Transpose(b1), i);
    CellCommutesWithTranspose(MirrorX(Transpose(a1)), MirrorX(Transpose(b1)), i);
    var (a3, b3) := if t.swap then (Transpose(a2), Transpose(b2)) else (a2, b2);
    CellCommutesWithTranspose(a2, b2, i);
    CellCommutesWithShift(a3, b3, t.shift, i);
  }

  /** Walking the image of two endpoints gives the image of the walk. */
  lemma LineCommutesWithSymmetry(t: Symmetry, a: Point, b: Point)
    ensures Line(t.Apply(a), t.Apply(b)) == t.Image(Line(a, b))
  {
    hide Cell, Steps;
    CellCommutesWithSymmetry(t, a, b, 0);
    forall i: nat | i <= Steps(a, b)
      ensures Cell(t.Apply(a), t.Apply(b), i) == t.Apply(Cell(a, b, i))
    {
      CellCommutesWithSymmetry(t, a, b, i);
    }
  }

  // ----- walking a line backwards -----

  function Reversed(ps: seq<Point>): seq<Point> {
    seq(|ps|, i requires 0 <= i < |ps| => ps[|ps| - 1 - i])
  }

  /** The ideal line leaves step i exactly half way between two rows. */
  predicate IsTie(major: nat, minor: nat, i: nat) {
    major > 0 && (2 * (i * minor) - major) % (2 * major) == 0
  }

  /** No step is a tie: halve both lengths while they are even; the major one must then be odd. */
  predicate TieFree(major: nat, minor: nat)
    decreases major
  {
    major == 0 || major % 2 == 1 || (minor % 2 == 0 && TieFree(major / 2, minor / 2))
  }

  lemma NearestFromFarEnd(major: nat, minor: nat, i: nat, k: int)
    requires major > 0 && i <= major && Nearest(major, minor, i, k)
    ensures Nearest(major, minor, major - i, minor - k) <==> 2 * (i * minor - k * major) != major
  {
    assert (major - i) * minor == major * minor - i * minor;
    assert (minor - k) * major == major * minor - k * major;
  }

  /** Rounding from the far end agrees with rounding from the near end except on ties. */
  lemma MinorStepsFromFarEnd(major: nat, minor: nat, i: nat)
    requires i <= major && minor <= major
    ensures minor - MinorSteps(major, minor, major - i) == MinorSteps(major, minor, i)
            <==> !IsTie(major, minor, i)
  {
    hide IsTie, Nearest;
    if major > 0 {
      hide MinorSteps;
      var k := MinorSteps(major, minor, i);
      NearestIffMinorSteps(major, minor, i, k);
      NearestIffMinorSteps(major, minor, major - i, minor - k);
      NearestFromFarEnd(major, minor, i, k);
      TieIffHalf(major, minor, i, k);
    } else {
      NoTieInAPoint(minor);
      assert HasNoTie(0, minor);
    }
  }

  lemma TieIffHalf(major: nat, minor: nat, i: nat, k: int)
    requires major > 0 && Nearest(major, minor, i, k)
    ensures IsTie(major, minor, i) <==> 2 * (i * minor - k * major) == major
  {
    var n, d := 2 * (i * minor) - major, 2 * major;
    var r := n - 2 * (k * major);
    assert n == d * k + r && -d < r <= 0;
    if r == 0 {
      assert n % d == 0 by { DivisionUnique(n, d, k, 0); }
    } else {
      assert n == d * (k - 1) + (r + d);
      DivisionUnique(n, d, k - 1, r + d);
    }
  }

  lemma DivisionUnique(n: int, d: nat, q: int, r: int)
    requires d > 0 && n == d * q + r && 0 <= r < d
    ensures n % d == r
  {
    var q', r' := n / d, n % d;
    assert n == d * q' + r';
    if q < q' {
      MulGap(q, q', d);
    } else if q' < q {
      MulGap(q', q, d);
    }
  }

  ghost predicate HasNoTie(major: nat, minor: nat) {
    forall i: nat :: i <= major ==> !IsTie(major, minor, i)
  }

  lemma {:induction false} TieFreeIffNoTie(major: nat, minor: nat)
    ensures TieFree(major, minor) <==> HasNoTie(major, minor)
    decreases major
  {
    hide IsTie, HasNoTie;
    if major == 0 {
      NoTieInAPoint(minor);
    } else if major % 2 == 1 {
      OddMajorHasNoTie(major, minor);
    } else if minor % 2 == 1 {
      HalfWayTie(major, minor);
    } else {
      TieFreeIffNoTie(major / 2, minor / 2);
      HalvingKeepsTies(major / 2, minor / 2);
    }
  }

  lemma NoTieInAPoint(minor: nat)
    ensures HasNoTie(0, minor)
  {}

  lemma HalvingKeepsTies(major: nat, minor: nat)
    requires major > 0
    ensures HasNoTie(2 * major, 2 * minor) <==> HasNoTie(major, minor)
  {
    hide IsTie;
    forall i: nat
      ensures IsTie(2 * major, 2 * minor, i) <==> IsTie(major, minor, i)
    {
      HalvedTie(major, minor, i);
    }
    forall i: nat | major <= i && IsTie(major, minor, i)
      ensures IsTie(major, minor, i - major)
    {
      TieIsPeriodic(major, minor, i);
    }
    if !HasNoTie(2 * major, 2 * minor) {
      var i: nat :| i <= 2 * major && IsTie(2 * major, 2 * minor, i);
      assert IsTie(major, minor, i);
      assert major <= i ==> IsTie(major, minor, i - major);
    }
    if !HasNoTie(major, minor) {
      var i: nat :| i <= major && IsTie(major, minor, i);
      assert IsTie(2 * major, 2 * minor, i);
    }
  }

  lemma OddMajorHasNoTie(major: nat, minor: nat)
    requires major % 2 == 1
    ensures HasNoTie(major, minor)
  {
    forall i: nat
      ensures !IsTie(major, minor, i)
    {
      MultipleIsEven(2 * (i * minor) - major, major);
    }
  }

  lemma MultipleIsEven(n: int, d: nat)
    requires d > 0
    ensures n % (2 * d) == 0 ==> n % 2 == 0
  {
    var p := d * (n / (2 * d));
    assert n == 2 * p + n % (2 * d);
  }

  lemma HalfWayTie(major: nat, minor: nat)
    requires major > 0 && major % 2 == 0 && minor % 2 == 1
    ensures !HasNoTie(major, minor)
  {
    var h, d := minor / 2, 2 * major;
    calc {
      2 * (major / 2 * minor) - major;
      major * minor - major;
      { assert minor == 2 * h + 1; }
      major * (2 * h + 1) - major;
      d * h;
    }
    DivisionUnique(d * h, d, h, 0);
    assert IsTie(major, minor, major / 2);
  }

  lemma HalvedTie(major: nat, minor: nat, i: nat)
    requires major > 0
    ensures IsTie(2 * major, 2 * minor, i) <==> IsTie(major, minor, i)
  {
    var n, d := 2 * (i * minor) - major, 2 * major;
    var q, r := n / d, n % d;
    assert n == d * q + r;
    assert 2 * (i * (2 * minor)) - 2 * major == 2 * n;
    assert 2 * n == (2 * d) * q + 2 * r;
    DivisionUnique(2 * n, 2 * d, q, 2 * r);
  }

  lemma TieIsPeriodic(major: nat, minor: nat, i: nat)
    requires major <= i && IsTie(major, minor, i)
    ensures IsTie(major, minor, i - major)
  {
    var n, d := 2 * (i * minor) - major, 2 * major;
    var q := n / d;
    assert n == d * q;
    assert (i - major) * minor == i * minor - major * minor;
    assert 2 * ((i - major) * minor) - major == n - d * minor == d * (q - minor);
    DivisionUnique(n - d * minor, d, q - minor, 0);
  }

  lemma CellFromFarEnd(a: Point, b: Point, i: nat)
    requires i <= Steps(a, b)
    ensures Cell(b, a, Steps(a, b) - i) == Cell(a, b, i)
            <==> !IsTie(Steps(a, b), b.Minus(a).MinorSide(), i)
  {
    hide MinorSteps, IsTie;
    var dx, dy := Abs(a.x - b.x), Abs(a.y - b.y);
    var major, minor := Max(dx, dy), Min(dx, dy);
    MinorStepsFromFarEnd(major, minor, i);
    if minor == 0 {
      FlatLine(major, i);
      FlatLine(major, major - i);
    }
  }

  /** Walking back retraces the walk exactly when no step is a tie. */
  lemma LineReversesIffTieFree(a: Point, b: Point)
    ensures Line(b, a) == Reversed(Line(a, b)) <==> TieFree(Steps(a, b), b.Minus(a).MinorSide())
  {
    hide Cell, IsTie, TieFree;
    var major, minor := Steps(a, b), b.Minus(a).MinorSide();
    TieFreeIffNoTie(major, minor);
    forall i: nat | i <= major
      ensures Line(b, a)[major - i] == Reversed(Line(a, b))[major - i] <==> !IsTie(major, minor, i)
    {
      CellFromFarEnd(a, b, i);
    }
    if HasNoTie(major, minor) {
      forall j: nat | j <= major
        ensures Line(b, a)[j] == Reversed(Line(a, b))[j]
      {
        assert !IsTie(major, minor, major - j);
        assert major - (major - j) == j;
      }
    }
  }

  /** The comment in geo.cpp calls the walk symmetric; this pair of endpoints shows it is not always. */
  lemma LineIsNotAlwaysReversible()
    ensures Line(Point(0, 0), Point(2, 1)) == [Point(0, 0), Point(1, 0), Point(2, 1)]
    ensures Line(Point(2, 1), Point(0, 0)) == [Point(2, 1), Point(1, 1), Point(0, 0)]
    ensures !TieFree(2, 1)
  {
    assert Cell(Point(0, 0), Point(2, 1), 1) == Point(1, 0);
    assert Cell(Point(2, 1), Point(0, 0), 1) == Point(1, 1);
  }
}

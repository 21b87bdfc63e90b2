/** Points of the game grid and the row-major matrix built on them. */
module Geometry {

  function Abs(n: int): nat {
    if n < 0 then -n else n
  }

  function Max(a: int, b: int): int {
    if a < b then b else a
  }

  function Min(a: int, b: int): int {
    if a < b then a else b
  }

  lemma MulGap(a: int, b: int, m: nat)
    requires a < b
    ensures a * m + m <= b * m
  {
    var gap := b - a - 1;
    assert gap * m >= 0;
    assert b * m == (a + 1 + gap) * m == a * m + m + gap * m;
  }

  datatype Point = Point(x: int, y: int) {
    function Plus(o: Point): Point {
      Point(x + o.x, y + o.y)
    }

    function Minus(o: Point): Point {
      Point(x - o.x, y - o.y)
    }

    function LenL2Squared(): int {
      x * x + y * y
    }

    function LenNethack(): int {
      (46 * Min(Abs(x), Abs(y)) + 95 * Max(Abs(x), Abs(y)) + 25) / 100
    }

    function LenWalking(): nat {
      Max(Abs(x), Abs(y))
    }

    /** The shorter of the two sides; a king's shortest path takes this many diagonal steps. */
    function MinorSide(): nat {
      Min(Abs(x), Abs(y))
    }
  }

  const ORIGIN := Point(0, 0)

  predicate InBounds(size: Point, p: Point) {
    0 <= p.x < size.x && 0 <= p.y < size.y
  }

  /** A matrix is held and copied by value, so updating one in place is assigning a new value. */
  datatype Matrix<V> = Matrix(size: Point, init: V, data: seq<V>) {

    ghost predicate Valid() {
      size.x >= 0 && size.y >= 0 && |data| == size.x * size.y
    }

    predicate Contains(p: Point) {
      InBounds(size, p)
    }

    function Index(p: Point): (i: nat)
      requires Valid() && Contains(p)
      ensures i < |data|
    {
      IndexInRange(p);
      p.x + size.x * p.y
    }

    lemma IndexInRange(p: Point)
      requires Valid() && Contains(p)
      ensures 0 <= p.x + size.x * p.y < size.x * size.y
    {
      MulGap(p.y, size.y, size.x);
      assert size.x * p.y >= 0;
    }

    function Get(p: Point): V
      requires Valid()
    {
      if Contains(p) then data[Index(p)] else init
    }

    function Set(p: Point, v: V): (m: Matrix<V>)
      requires Valid()
      ensures m.Valid() && m.size == size && m.init == init
    {
      if Contains(p) then this.(data := data[Index(p) := v]) else this
    }

    function Fill(v: V): (m: Matrix<V>)
      requires Valid()
      ensures m.Valid() && m.size == size && m.init == init
      ensures forall p :: m.Get(p) == if Contains(p) then v else init
    {
      var m := this.(data := seq(|data|, _ => v));
      m
    }

    /** Distinct cells never share a slot of the flat vector. */
    lemma IndexInjective(p: Point, q: Point)
      requires Valid() && Contains(p) && Contains(q) && p != q
      ensures Index(p) != Index(q)
    {
      if p.y < q.y {
        MulGap(p.y, q.y, size.x);
      } else if q.y < p.y {
        MulGap(q.y, p.y, size.x);
      }
    }

    lemma GetOutside()
      requires Valid()
      ensures forall p :: !Contains(p) ==> Get(p) == init
    {}

    /** A write is seen at its own cell and nowhere else; outside the bounds it is dropped. */
    lemma GetAfterSet(p: Point, v: V)
      requires Valid()
      ensures forall q :: Set(p, v).Get(q) == if q == p && Contains(p) then v else Get(q)
    {
      forall q
        ensures Set(p, v).Get(q) == if q == p && Contains(p) then v else Get(q)
      {
        if Contains(p) && Contains(q) && p != q {
          IndexInjective(p, q);
        }
      }
    }
  }

  function NewMatrix<V>(size: Point, init: V): (m: Matrix<V>)
    requires size.x >= 0 && size.y >= 0
    ensures m.Valid() && m.size == size && m.init == init
    ensures forall p :: m.Get(p) == init
  {
    Matrix(size, init, seq(size.x * size.y, _ => init))
  }
}

/** `point.rs`: integer points in the plane and their eight neighbours. */
module Point {

  datatype Point2D = Point2D(x: int, y: int)

  const North := Point2D(0, -1)
  const South := Point2D(0, 1)
  const East := Point2D(1, 0)
  const West := Point2D(-1, 0)
  const Origin := Point2D(0, 0)

  /** `Add for Point2D`. */
  function Add(a: Point2D, b: Point2D): Point2D {
    Point2D(a.x + b.x, a.y + b.y)
  }

  /** Addition is componentwise, so it is commutative and associative with
      the origin as its unit. */
  lemma AddLaws(a: Point2D, b: Point2D, c: Point2D)
    ensures Add(a, b) == Add(b, a)
    ensures Add(Add(a, b), c) == Add(a, Add(b, c))
    ensures Add(a, Origin) == a
    ensures Add(a, b).x - a.x == b.x && Add(a, b).y - a.y == b.y
  {
  }

  /** `neighbors`: the eight points around `p`, clockwise from north-west. */
  function Neighbors(p: Point2D): (ns: seq<Point2D>)
    ensures |ns| == 8
  {
    [ Add(Add(p, North), West), Add(p, North), Add(Add(p, North), East), Add(p, East),
      Add(Add(p, South), East), Add(p, South), Add(Add(p, South), West), Add(p, West) ]
  }

  /** `q` differs from `p` by at most one on each axis and is not `p`. */
  predicate Adjacent(p: Point2D, q: Point2D) {
    q != p && -1 <= q.x - p.x <= 1 && -1 <= q.y - p.y <= 1
  }

  /** The eight neighbours are pairwise distinct, and they are exactly the
      points at Chebyshev distance one. */
  lemma NeighborsRing(p: Point2D)
    ensures forall i, j :: 0 <= i < j < 8 ==> Neighbors(p)[i] != Neighbors(p)[j]
    ensures forall q :: q in Neighbors(p) <==> Adjacent(p, q)
  {
    var ns := Neighbors(p);
    forall q | Adjacent(p, q)
      ensures q in ns
    {
      var dx, dy := q.x - p.x, q.y - p.y;
      if dy == -1 {
        assert q == ns[dx + 1];
      } else if dy == 1 {
        assert q == ns[5 - dx];
      } else if dx == 1 {
        assert q == ns[3];
      } else {
        assert q == ns[7];
      }
    }
  }

  /** Being a neighbour is symmetric. */
  lemma NeighborsSymmetric(p: Point2D, q: Point2D)
    ensures q in Neighbors(p) <==> p in Neighbors(q)
  {
    NeighborsRing(p);
    NeighborsRing(q);
  }
}

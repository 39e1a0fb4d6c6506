/** The red tiles of `day_09.rs`.

    Each input line holds the position `x,y` of a red tile. Any two red
    tiles are opposite corners of a rectangle of tiles; the first part asks
    for the largest such rectangle, counting tiles inclusively. */
module Day09 {
  import opened Results
  import opened Text
  import opened Arith
  import opened Point

  const NoneUnwrapped := "called `Option::unwrap()` on a `None` value"
  const Unwrapped := "called `Result::unwrap()` on an `Err` value"

  // ================================================================ parsing

  /** One line of `parse_points`: split at the first comma, then parse both
      halves as they are, without trimming. */
  function ParsePoint(line: string): (r: Result<Point2D>)
    ensures ',' !in line ==> r == Err(NoneUnwrapped)
  {
    match SplitOnce(line, ',')
    case None => Err(NoneUnwrapped)
    case Some((a, b)) =>
      match (ParseInt(a), ParseInt(b))
      case (Some(x), Some(y)) => Ok(Point2D(x, y))
      case _ => Err(Unwrapped)
  }

  /** A line with a comma parses exactly when the text on each side of its
      first comma is an integer, and the point holds those integers. */
  lemma ParsePointFields(line: string)
    requires ',' in line
    ensures var halves := SplitOnce(line, ',').value;
      ParsePoint(line).Ok? <==> ParseInt(halves.0).Some? && ParseInt(halves.1).Some?
    ensures var halves := SplitOnce(line, ',').value;
      ParsePoint(line).Ok? ==> ParsePoint(line).value == Point2D(ParseInt(halves.0).value, ParseInt(halves.1).value)
    ensures ParsePoint(line).Err? ==> ParsePoint(line) == Err(Unwrapped)
  {
  }

  /** The line `x,y` for a point. */
  function ShowPoint(p: Point2D): string {
    IntToString(p.x) + [','] + IntToString(p.y)
  }

  /** Parsing a printed point gives the point back. */
  lemma ParseShowPoint(p: Point2D)
    ensures ParsePoint(ShowPoint(p)) == Ok(p)
  {
    IntToStringChars(p.x);
    assert ',' !in IntToString(p.x);
    SplitOnceJoin(IntToString(p.x), ',', IntToString(p.y));
    ParseIntToString(p.x);
    ParseIntToString(p.y);
  }

  /** `parse_points`: a point per line, blank lines included, or the panic
      of the first line that does not parse. */
  function ParsePoints(input: string): Result<seq<Point2D>> {
    Collect(Map(ParsePoint, Lines(input)))
  }

  // ================================================================ rectangles

  function Abs(a: int): nat {
    if a < 0 then -a else a
  }

  /** `Rect::area`: the number of tiles of the rectangle with corners `p`
      and `q`, both corners included. */
  function Area(p: Point2D, q: Point2D): (a: nat)
    ensures a >= 1
    ensures a >= Abs(p.x - q.x) + 1 && a >= Abs(p.y - q.y) + 1
  {
    var w, h := Abs(p.x - q.x) + 1, Abs(p.y - q.y) + 1;
    MulAtLeast(w, h);
    MulAtLeast(h, w);
    w * h
  }

  /** The corners can be given in either order. */
  lemma AreaSymmetric(p: Point2D, q: Point2D)
    ensures Area(p, q) == Area(q, p)
  {
    assert Abs(p.x - q.x) == Abs(q.x - p.x);
    assert Abs(p.y - q.y) == Abs(q.y - p.y);
  }

  /** A single tile is a rectangle of one tile. */
  lemma AreaSelf(p: Point2D)
    ensures Area(p, p) == 1
  {
  }

  // ================================================================ first part

  /** The area of the rectangle with corners `ps[k]` and `ps[l]`. */
  function PairArea(ps: seq<Point2D>, k: nat, l: nat): nat
    requires k < |ps| && l < |ps|
  {
    Area(ps[k], ps[l])
  }

  /** The inner fold: `acc` combined with the areas of `ps[i]` and each of
      `ps[j..]`. Its result bounds every one of those areas. */
  function InnerFold(ps: seq<Point2D>, i: nat, j: nat, acc: nat): (best: nat)
    requires i < |ps| && j <= |ps|
    ensures best >= acc
    ensures forall l :: j <= l < |ps| ==> PairArea(ps, i, l) <= best
    decreases |ps| - j
  {
    if j == |ps| then acc else InnerFold(ps, i, j + 1, Max(acc, PairArea(ps, i, j)))
  }

  /** The inner fold's result is its start value or one of the areas. */
  lemma {:induction false} InnerFoldAttained(ps: seq<Point2D>, i: nat, j: nat, acc: nat)
    requires i < |ps| && j <= |ps|
    ensures var best := InnerFold(ps, i, j, acc);
      best == acc || exists l :: j <= l < |ps| && best == PairArea(ps, i, l)
    decreases |ps| - j
  {
    if j < |ps| {
      var next := Max(acc, PairArea(ps, i, j));
      InnerFoldAttained(ps, i, j + 1, next);
      var best := InnerFold(ps, i, j + 1, next);
      assert InnerFold(ps, i, j, acc) == best;
      if best == next {
        if next != acc {
          assert j <= j < |ps| && best == PairArea(ps, i, j);
        }
      } else {
        var l :| j + 1 <= l < |ps| && best == PairArea(ps, i, l);
        assert j <= l < |ps| && best == PairArea(ps, i, l);
      }
    }
  }

  /** The outer fold: `best` combined with each point's inner fold over the
      points after it. Its result bounds the area of every pair from `i`
      on. */
  function OuterFold(ps: seq<Point2D>, i: nat, best: nat): (r: nat)
    requires i <= |ps|
    ensures r >= best
    ensures forall k, l :: i <= k < l < |ps| ==> PairArea(ps, k, l) <= r
    decreases |ps| - i
  {
    if i == |ps| then best else OuterFold(ps, i + 1, Max(best, InnerFold(ps, i, i + 1, 0)))
  }

  /** The outer fold's result is its start value or the area of a pair. */
  lemma {:induction false} OuterFoldAttained(ps: seq<Point2D>, i: nat, best: nat)
    requires i <= |ps|
    ensures var r := OuterFold(ps, i, best);
      r == best || exists k, l :: i <= k < l < |ps| && r == PairArea(ps, k, l)
    decreases |ps| - i
  {
    if i < |ps| {
      var inner := InnerFold(ps, i, i + 1, 0);
      InnerFoldAttained(ps, i, i + 1, 0);
      OuterFoldAttained(ps, i + 1, Max(best, inner));
      var r := OuterFold(ps, i + 1, Max(best, inner));
      assert OuterFold(ps, i, best) == r;
      if r == Max(best, inner) {
        if inner > best {
          var l :| i + 1 <= l < |ps| && inner == PairArea(ps, i, l);
          assert i <= i < l < |ps| && r == PairArea(ps, i, l);
        }
      } else {
        var k, l :| i + 1 <= k < l < |ps| && r == PairArea(ps, k, l);
        assert i <= k < l < |ps| && r == PairArea(ps, k, l);
      }
    }
  }

  /** `Day09::first` on parsed points. */
  function LargestArea(ps: seq<Point2D>): nat {
    OuterFold(ps, 0, 0)
  }

  /** The largest area is the maximum over all pairs of distinct points,
      and 0 when there are fewer than two points. */
  lemma LargestAreaIsMax(ps: seq<Point2D>)
    ensures forall k, l :: 0 <= k < |ps| && 0 <= l < |ps| && k != l ==> Area(ps[k], ps[l]) <= LargestArea(ps)
    ensures |ps| >= 2 ==> exists k, l :: 0 <= k < l < |ps| && LargestArea(ps) == Area(ps[k], ps[l])
    ensures |ps| < 2 ==> LargestArea(ps) == 0
  {
    var m := LargestArea(ps);
    OuterFoldAttained(ps, 0, 0);
    forall k, l | 0 <= k < |ps| && 0 <= l < |ps| && k != l
      ensures Area(ps[k], ps[l]) <= m
    {
      if l < k {
        assert PairArea(ps, l, k) <= m;
        AreaSymmetric(ps[k], ps[l]);
      } else {
        assert PairArea(ps, k, l) <= m;
      }
    }
    if |ps| >= 2 {
      assert PairArea(ps, 0, 1) <= m;
    }
  }

  // ================================================================ the puzzle's example

  /** The eight red tiles of the puzzle's example. */
  const Sample: seq<Point2D> := [
    Point2D(7, 1), Point2D(11, 1), Point2D(11, 7), Point2D(9, 7),
    Point2D(9, 5), Point2D(2, 5), Point2D(2, 3), Point2D(7, 3)]

  /** The example's tiles lie in columns 2..11 and rows 1..7, and the tiles
      of the top and bottom rows lie in columns 7..11. */
  lemma SampleBounds(k: nat)
    requires k < |Sample|
    ensures 2 <= Sample[k].x <= 11 && 1 <= Sample[k].y <= 7
    ensures Sample[k].y == 1 || Sample[k].y == 7 ==> 7 <= Sample[k].x
  {
  }

  /** No rectangle of the example covers more than 50 tiles: one spanning
      all seven rows is at most five columns wide. */
  lemma SampleAreaAtMost(k: nat, l: nat)
    requires k < |Sample| && l < |Sample|
    ensures Area(Sample[k], Sample[l]) <= 50
  {
    SampleBounds(k);
    SampleBounds(l);
    var w, h := Abs(Sample[k].x - Sample[l].x) + 1, Abs(Sample[k].y - Sample[l].y) + 1;
    assert Area(Sample[k], Sample[l]) == w * h;
    if h == 7 {
      MulMonotone(w, h, 5, 7);
    } else {
      MulMonotone(w, h, 10, 5);
    }
  }

  /** A pair's area that no other pair's exceeds is the largest area. */
  lemma LargestAreaAttained(ps: seq<Point2D>, k: nat, l: nat)
    requires k < |ps| && l < |ps| && k != l
    requires forall i, j :: 0 <= i < |ps| && 0 <= j < |ps| ==> Area(ps[i], ps[j]) <= Area(ps[k], ps[l])
    ensures LargestArea(ps) == Area(ps[k], ps[l])
  {
    LargestAreaIsMax(ps);
  }

  /** The example's answer: the largest rectangle covers 50 tiles, with
      corners (2,5) and (11,1). */
  lemma SampleLargestArea()
    ensures LargestArea(Sample) == 50
  {
    assert Area(Sample[5], Sample[1]) == 10 * 5;
    forall i, j | 0 <= i < |Sample| && 0 <= j < |Sample|
      ensures Area(Sample[i], Sample[j]) <= 50
    {
      SampleAreaAtMost(i, j);
    }
    LargestAreaAttained(Sample, 5, 1);
  }

  /** `Day09::first`: the largest area, or the panic of the first line that
      does not parse. */
  function FirstAnswer(input: string): (r: Result<nat>)
    ensures r.Ok? <==> ParsePoints(input).Ok?
    ensures r.Ok? ==> r.value == LargestArea(ParsePoints(input).value)
  {
    var ps :- ParsePoints(input);
    Ok(LargestArea(ps))
  }
}

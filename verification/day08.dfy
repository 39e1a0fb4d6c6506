/** The junction boxes of `day_08.rs`.

    Each input line holds the three coordinates of a junction box. Every
    pair of boxes is a candidate edge weighted by its squared distance; the
    `k` shortest edges (ties broken by the box indices) are joined with a
    union-find, and the answer is the product of the sizes of the three
    largest circuits. */
module Day08 {
  import opened Results
  import opened Text
  import opened Seqs
  import opened DisjointSets

  const NoneUnwrapped := "called `Option::unwrap()` on a `None` value"
  const Unwrapped := "called `Result::unwrap()` on an `Err` value"
  const Underflow := "attempt to subtract with overflow"

  /** How many shortest edges `Day08::first` joins. */
  const Connections := 1000

  function Min(a: nat, b: nat): nat {
    if a < b then a else b
  }

  // ================================================================ points

  /** `Point3D`. */
  datatype Point3D = Point3D(x: int, y: int, z: int)

  /** Each comma-separated field, trimmed and parsed as an integer. */
  function FieldValues(fields: seq<string>): (vs: seq<Option<int>>)
    ensures |vs| == |fields|
    ensures forall i :: 0 <= i < |fields| ==> vs[i] == ParseInt(Trim(fields[i]))
  {
    if |fields| == 0 then [] else [ParseInt(Trim(fields[0]))] + FieldValues(fields[1..])
  }

  /** The `i`-th coordinate: a missing field fails the `next().unwrap()`,
      a malformed one the `parse().unwrap()`. */
  function Coordinate(vs: seq<Option<int>>, i: nat): (r: Result<int>)
    ensures r.Ok? <==> i < |vs| && vs[i].Some?
    ensures r.Ok? ==> r.value == vs[i].value
    ensures i >= |vs| ==> r == Err(NoneUnwrapped)
    ensures i < |vs| && vs[i].None? ==> r == Err(Unwrapped)
  {
    if i >= |vs| then Err(NoneUnwrapped)
    else match vs[i]
      case Some(v) => Ok(v)
      case None => Err(Unwrapped)
  }

  /** The point of the first three fields: x, y and z, each field checked
      before the next is looked for. */
  function PointOf(vs: seq<Option<int>>): (r: Result<Point3D>)
  {
    var x :- Coordinate(vs, 0);
    var y :- Coordinate(vs, 1);
    var z :- Coordinate(vs, 2);
    Ok(Point3D(x, y, z))
  }

  /** `Point3D::parse`: the first three fields of the line; further fields
      are ignored. */
  function ParsePoint(line: string): (r: Result<Point3D>)
  {
    PointOf(FieldValues(Split(line, ',')))
  }

  /** A line parses exactly when its first three fields exist and are
      integers, and the point holds their values. */
  lemma ParsePointOk(line: string)
    ensures var vs := FieldValues(Split(line, ','));
      ParsePoint(line).Ok? <==> |vs| >= 3 && vs[0].Some? && vs[1].Some? && vs[2].Some?
    ensures var vs := FieldValues(Split(line, ','));
      ParsePoint(line).Ok? ==> ParsePoint(line).value == Point3D(vs[0].value, vs[1].value, vs[2].value)
  {
  }

  /** The fields are checked in order: a malformed field panics before a
      later field is looked for, and a missing field panics only when the
      ones before it are integers. */
  lemma ParsePointErrors(line: string)
    ensures var vs := FieldValues(Split(line, ','));
      vs[0].None? ==> ParsePoint(line) == Err(Unwrapped)
    ensures var vs := FieldValues(Split(line, ','));
      |vs| < 3 && (forall i :: 0 <= i < |vs| ==> vs[i].Some?) ==> ParsePoint(line) == Err(NoneUnwrapped)
  {
  }

  /** The line `x,y,z` for a point. */
  function ShowPoint(p: Point3D): string {
    Join([IntToString(p.x), IntToString(p.y), IntToString(p.z)], ',')
  }

  /** Printed integers survive trimming and splitting on commas. */
  lemma PrintedField(n: int)
    ensures ',' !in IntToString(n)
    ensures ParseInt(Trim(IntToString(n))) == Some(n)
  {
    var s := IntToString(n);
    IntToStringChars(n);
    TrimPlain(s);
    ParseIntToString(n);
  }

  /** Three comma-free fields that parse as `x`, `y` and `z`, joined by
      commas, parse as the point `(x, y, z)`. */
  lemma ParseJoined(a: string, b: string, c: string, p: Point3D)
    requires ',' !in a && ',' !in b && ',' !in c
    requires ParseInt(Trim(a)) == Some(p.x) && ParseInt(Trim(b)) == Some(p.y) && ParseInt(Trim(c)) == Some(p.z)
    ensures ParsePoint(Join([a, b, c], ',')) == Ok(p)
  {
    SplitThree(a, b, c);
    FieldsThree(a, b, c, p);
    PointOfThree(FieldValues([a, b, c]), p);
  }

  lemma SplitThree(a: string, b: string, c: string)
    requires ',' !in a && ',' !in b && ',' !in c
    ensures Split(Join([a, b, c], ','), ',') == [a, b, c]
  {
    var fields := [a, b, c];
    assert forall i :: 0 <= i < |fields| ==> fields[i] in {a, b, c};
    SplitJoin(fields, ',');
  }

  lemma PointOfThree(vs: seq<Option<int>>, p: Point3D)
    requires vs == [Some(p.x), Some(p.y), Some(p.z)]
    ensures PointOf(vs) == Ok(p)
  {
  }

  lemma FieldsThree(a: string, b: string, c: string, p: Point3D)
    requires ParseInt(Trim(a)) == Some(p.x) && ParseInt(Trim(b)) == Some(p.y) && ParseInt(Trim(c)) == Some(p.z)
    ensures FieldValues([a, b, c]) == [Some(p.x), Some(p.y), Some(p.z)]
  {
  }

  /** Parsing a printed point gives the point back. */
  lemma ParseShowPoint(p: Point3D)
    ensures ParsePoint(ShowPoint(p)) == Ok(p)
  {
    PrintedField(p.x);
    PrintedField(p.y);
    PrintedField(p.z);
    ParseJoined(IntToString(p.x), IntToString(p.y), IntToString(p.z), p);
  }

  // ================================================================ input

  /** The lines that are not blank once trimmed, in order. */
  function NonBlank(ls: seq<string>): (r: seq<string>)
    ensures |r| <= |ls|
    ensures forall l :: l in r <==> l in ls && |Trim(l)| > 0
  {
    if |ls| == 0 then []
    else (if |Trim(ls[0])| > 0 then [ls[0]] else []) + NonBlank(ls[1..])
  }

  /** The kept lines of two blocks are those of the first block followed
      by those of the second: order and repeats are kept, so a box's index
      is its place among the non-blank lines. */
  lemma {:induction false} NonBlankConcat(a: seq<string>, b: seq<string>)
    ensures NonBlank(a + b) == NonBlank(a) + NonBlank(b)
  {
    if |a| > 0 {
      assert (a + b)[1..] == a[1..] + b;
      NonBlankConcat(a[1..], b);
    } else {
      assert a + b == b;
    }
  }

  /** The junction boxes of the input. */
  function Points(input: string): Result<seq<Point3D>> {
    Collect(Map(ParsePoint, NonBlank(Lines(input))))
  }

  // ================================================================ distance

  function Square(a: int): (s: nat) {
    a * a
  }

  /** `dist_to`: the squared Euclidean distance. */
  function Dist(p: Point3D, q: Point3D): nat {
    Square(p.x - q.x) + Square(p.y - q.y) + Square(p.z - q.z)
  }

  /** The distance is symmetric. */
  lemma DistSymmetric(p: Point3D, q: Point3D)
    ensures Dist(p, q) == Dist(q, p)
  {
    assert Square(p.x - q.x) == Square(q.x - p.x);
    assert Square(p.y - q.y) == Square(q.y - p.y);
    assert Square(p.z - q.z) == Square(q.z - p.z);
  }

  /** A point is at distance zero from itself and only from itself. */
  lemma DistZero(p: Point3D, q: Point3D)
    ensures Dist(p, q) == 0 <==> p == q
  {
    if Dist(p, q) == 0 {
      SquareZero(p.x - q.x);
      SquareZero(p.y - q.y);
      SquareZero(p.z - q.z);
    }
  }

  lemma SquareZero(a: int)
    requires Square(a) == 0
    ensures a == 0
  {
  }

  // ================================================================ edges

  /** `Edge`: two box indices and their distance. */
  datatype Edge = Edge(a: nat, b: nat, dist: nat)

  /** `e` joins boxes `a < b` of `ps` with their distance. */
  ghost predicate IsEdge(ps: seq<Point3D>, e: Edge) {
    e.a < e.b < |ps| && e.dist == Dist(ps[e.a], ps[e.b])
  }

  /** The order in which the nested loops produce index pairs. */
  predicate PairBefore(e: Edge, f: Edge) {
    e.a < f.a || (e.a == f.a && e.b < f.b)
  }

  /** In loop order, hence without repetitions. */
  predicate InLoopOrder(es: seq<Edge>) {
    forall k, l :: 0 <= k < l < |es| ==> PairBefore(es[k], es[l])
  }

  /** The inner loop: the edges from box `i` to boxes `j..`. */
  function RowEdges(ps: seq<Point3D>, i: nat, j: nat): (es: seq<Edge>)
    requires i < j <= |ps|
    ensures |es| == |ps| - j
    ensures forall e :: e in es <==> e.a == i && j <= e.b && IsEdge(ps, e)
    ensures forall k :: 0 <= k < |es| ==> es[k].a == i
    ensures InLoopOrder(es)
    decreases |ps| - j
  {
    if j == |ps| then []
    else [Edge(i, j, Dist(ps[i], ps[j]))] + RowEdges(ps, i, j + 1)
  }

  /** The outer loop: the edges from boxes `i..` to later boxes. */
  function EdgesFrom(ps: seq<Point3D>, i: nat): (es: seq<Edge>)
    requires i <= |ps|
    ensures forall e :: e in es <==> i <= e.a && IsEdge(ps, e)
    ensures forall k :: 0 <= k < |es| ==> i <= es[k].a
    ensures InLoopOrder(es)
    decreases |ps| - i
  {
    if i == |ps| then []
    else
      var row, rest := RowEdges(ps, i, i + 1), EdgesFrom(ps, i + 1);
      LoopOrderConcat(row, rest, i);
      row + rest
  }

  lemma LoopOrderConcat(row: seq<Edge>, rest: seq<Edge>, i: nat)
    requires InLoopOrder(row) && InLoopOrder(rest)
    requires forall k :: 0 <= k < |row| ==> row[k].a == i
    requires forall k :: 0 <= k < |rest| ==> i < rest[k].a
    ensures InLoopOrder(row + rest)
  {
  }

  /** All pairs of distinct boxes, each once. */
  function Edges(ps: seq<Point3D>): (es: seq<Edge>)
    ensures forall e :: e in es <==> IsEdge(ps, e)
    ensures InLoopOrder(es)
  {
    EdgesFrom(ps, 0)
  }

  /** There are `n (n - 1) / 2` edges, the capacity reserved for them. */
  lemma {:induction false} EdgesFromCount(ps: seq<Point3D>, i: nat)
    requires i <= |ps|
    ensures 2 * |EdgesFrom(ps, i)| == (|ps| - i) * (|ps| - i - 1)
    decreases |ps| - i
  {
    if i < |ps| {
      EdgesFromCount(ps, i + 1);
      var m := |ps| - i;
      assert |EdgesFrom(ps, i)| == (m - 1) + |EdgesFrom(ps, i + 1)|;
      TriangleStep(m);
    }
  }

  lemma TriangleStep(m: nat)
    requires m >= 1
    ensures m * (m - 1) == 2 * (m - 1) + (m - 1) * (m - 2)
  {
  }

  lemma EdgeCount(ps: seq<Point3D>)
    ensures 2 * |Edges(ps)| == |ps| * (|ps| - 1)
  {
    EdgesFromCount(ps, 0);
  }

  // ================================================================ sorting edges

  /** The key `(dist, a, b)` of `e` is at most that of `f`. */
  predicate KeyAtMost(e: Edge, f: Edge) {
    e.dist < f.dist || (e.dist == f.dist && (e.a < f.a || (e.a == f.a && e.b <= f.b)))
  }

  predicate SortedByKey(es: seq<Edge>) {
    forall k, l :: 0 <= k < l < |es| ==> KeyAtMost(es[k], es[l])
  }

  /** Puts `e` before the first edge with a larger key. */
  function InsertEdge(s: seq<Edge>, e: Edge): (t: seq<Edge>)
    requires SortedByKey(s)
    ensures |t| == |s| + 1
    ensures SortedByKey(t)
    ensures multiset(t) == multiset(s) + multiset{e}
  {
    if |s| == 0 then [e]
    else if KeyAtMost(e, s[0]) then [e] + s
    else
      var rest := InsertEdge(s[1..], e);
      InsertEdgeHead(s, e, rest);
      [s[0]] + rest
  }

  lemma InsertEdgeHead(s: seq<Edge>, e: Edge, rest: seq<Edge>)
    requires |s| > 0 && SortedByKey(s) && KeyAtMost(s[0], e)
    requires SortedByKey(rest) && multiset(rest) == multiset(s[1..]) + multiset{e}
    ensures SortedByKey([s[0]] + rest)
    ensures multiset([s[0]] + rest) == multiset(s) + multiset{e}
  {
    assert s == [s[0]] + s[1..];
    forall k | 0 <= k < |rest|
      ensures KeyAtMost(s[0], rest[k])
    {
      assert rest[k] in multiset(rest);
      if rest[k] != e {
        assert rest[k] in multiset(s[1..]);
        var m :| 0 <= m < |s[1..]| && s[1..][m] == rest[k];
        assert s[m + 1] == rest[k];
      }
    }
  }

  /** `sort_unstable_by` on `(dist, a, b)`, as insertion sort. */
  function SortEdges(es: seq<Edge>): (t: seq<Edge>)
    ensures |t| == |es|
    ensures SortedByKey(t)
    ensures multiset(t) == multiset(es)
  {
    if |es| == 0 then []
    else
      assert es == es[..|es| - 1] + [es[|es| - 1]];
      InsertEdge(SortEdges(es[..|es| - 1]), es[|es| - 1])
  }

  /** The key is the whole edge, so a sorted arrangement is unique: an
      unstable sort cannot order the edges any other way. */
  lemma {:induction false} SortedUnique(s: seq<Edge>, t: seq<Edge>)
    requires SortedByKey(s) && SortedByKey(t) && multiset(s) == multiset(t)
    ensures s == t
  {
    assert |s| == |multiset(s)| == |multiset(t)| == |t|;
    if |s| > 0 {
      assert t[0] in multiset(s) && s[0] in multiset(t);
      SortedHeadLeast(s, t[0]);
      SortedHeadLeast(t, s[0]);
      assert s[0] == t[0];
      SortedTail(s);
      SortedTail(t);
      assert s == [s[0]] + s[1..] && t == [t[0]] + t[1..];
      assert multiset(s) == multiset{s[0]} + multiset(s[1..]);
      assert multiset(t) == multiset{t[0]} + multiset(t[1..]);
      assert multiset(s[1..]) == multiset(s) - multiset{s[0]};
      assert multiset(t[1..]) == multiset(t) - multiset{t[0]};
      SortedUnique(s[1..], t[1..]);
    }
  }

  /** The head of a sorted sequence has the least key. */
  lemma SortedHeadLeast(s: seq<Edge>, e: Edge)
    requires SortedByKey(s) && e in multiset(s)
    ensures KeyAtMost(s[0], e)
  {
    var i :| 0 <= i < |s| && s[i] == e;
  }

  lemma SortedTail(s: seq<Edge>)
    requires SortedByKey(s) && |s| > 0
    ensures SortedByKey(s[1..])
  {
    forall k, l | 0 <= k < l < |s| - 1
      ensures KeyAtMost(s[1..][k], s[1..][l])
    {
      assert s[1..][k] == s[k + 1] && s[1..][l] == s[l + 1];
    }
  }

  // ================================================================ clustering

  /** The first `k` edges of `es` join boxes of `uf`: each has both ends in
      one set. */
  ghost predicate Joins(es: seq<Edge>, k: nat, uf: UnionFind, rank: seq<nat>)
    requires Valid(uf, rank)
  {
    forall i :: 0 <= i < Min(k, |es|) ==>
      es[i].a < |uf.parent| && es[i].b < |uf.parent| &&
      Root(uf.parent, rank, es[i].a) == Root(uf.parent, rank, es[i].b)
  }

  /** Joining the ends of edge `t` keeps the earlier edges joined. */
  lemma UnionKeepsJoins(es: seq<Edge>, t: nat, uf: UnionFind, rank: seq<nat>)
    requires Valid(uf, rank) && t < |es| && es[t].a < |uf.parent| && es[t].b < |uf.parent|
    requires Joins(es, t, uf, rank)
    ensures var e := es[t];
      Joins(es, t + 1, Union(uf, e.a, e.b, rank).1, UnionRank(uf, e.a, e.b, rank))
  {
    var e := es[t];
    var after := Union(uf, e.a, e.b, rank).1;
    var rank' := UnionRank(uf, e.a, e.b, rank);
    assert Valid(after, rank') && |after.parent| == |uf.parent|;
    forall i | 0 <= i < t + 1
      ensures es[i].a < |after.parent| && es[i].b < |after.parent|
      ensures Root(after.parent, rank', es[i].a) == Root(after.parent, rank', es[i].b)
    {
      UnionKeepsJoin(es, t, uf, rank, i);
    }
    assert Min(t + 1, |es|) == t + 1;
  }

  lemma UnionKeepsJoin(es: seq<Edge>, t: nat, uf: UnionFind, rank: seq<nat>, i: nat)
    requires Valid(uf, rank) && t < |es| && es[t].a < |uf.parent| && es[t].b < |uf.parent|
    requires Joins(es, t, uf, rank) && i <= t
    ensures es[i].a < |uf.parent| && es[i].b < |uf.parent|
    ensures var p, rank' := Union(uf, es[t].a, es[t].b, rank).1.parent, UnionRank(uf, es[t].a, es[t].b, rank);
      Root(p, rank', es[i].a) == Root(p, rank', es[i].b)
  {
    var y, z := es[i].a, es[i].b;
    assert y < |uf.parent| && z < |uf.parent| by {
      if i < t { assert Min(t, |es|) == t; }
    }
    UnionConnects(uf, es[t].a, es[t].b, rank, y, z);
  }

  /** The union loop of `solve_first`: union the ends of each of the
      first `k` edges, on a fresh union-find of `n` boxes. Every taken edge ends up inside one set;
      each set's size counts its members; and there are `n - merges` sets,
      where `merges` is how many unions joined two different sets. Every
      box's representative is its label in the reference clustering. */
  method Cluster(n: nat, es: seq<Edge>, k: nat) returns (uf: UnionFind, merges: nat, ghost rank: seq<nat>)
    requires Ends(es, n)
    ensures Valid(uf, rank) && |uf.parent| == n && SizesCount(uf, rank)
    ensures merges <= Min(k, |es|) && RootCount(uf.parent, n) == n - merges
    ensures Joins(es, k, uf, rank)
    ensures Tracks(uf, rank, Labels(n, es, Min(k, |es|)))
  {
    uf := New(n);
    rank := seq(n, x => 0);
    NewCounts(n);
    merges := 0;
    for t := 0 to Min(k, |es|)
      invariant Valid(uf, rank) && |uf.parent| == n && SizesCount(uf, rank)
      invariant merges <= t && RootCount(uf.parent, n) == n - merges
      invariant Joins(es, t, uf, rank) && Tracks(uf, rank, Labels(n, es, t))
    {
      uf, merges, rank := Take(n, es, t, uf, merges, rank);
    }
  }

  /** One turn of the union loop: union the ends of edge `t`, counting
      the union when it joined two different sets. */
  method Take(n: nat, es: seq<Edge>, t: nat, uf0: UnionFind, merges0: nat, ghost rank0: seq<nat>)
    returns (uf: UnionFind, merges: nat, ghost rank: seq<nat>)
    requires Ends(es, n) && t < |es|
    requires Valid(uf0, rank0) && |uf0.parent| == n && SizesCount(uf0, rank0)
    requires merges0 <= t && RootCount(uf0.parent, n) == n - merges0
    requires Joins(es, t, uf0, rank0) && Tracks(uf0, rank0, Labels(n, es, t))
    ensures Valid(uf, rank) && |uf.parent| == n && SizesCount(uf, rank)
    ensures merges <= t + 1 && RootCount(uf.parent, n) == n - merges
    ensures Joins(es, t + 1, uf, rank) && Tracks(uf, rank, Labels(n, es, t + 1))
  {
    var e := es[t];
    var res := Union(uf0, e.a, e.b, rank0);
    rank := UnionRank(uf0, e.a, e.b, rank0);
    UnionKeepsSizes(uf0, e.a, e.b, rank0);
    UnionRootCount(uf0, e.a, e.b, rank0);
    UnionKeepsJoins(es, t, uf0, rank0);
    UnionTracks(uf0, rank0, Labels(n, es, t), e.a, e.b);
    assert Labels(n, es, t + 1) == LabelStep(Labels(n, es, t), e.a, e.b);
    uf := res.1;
    merges := if res.0 then merges0 + 1 else merges0;
  }

  // ================================================================ reference clustering

  /** Both ends of every edge are among the boxes `0..n`. */
  predicate Ends(es: seq<Edge>, n: nat) {
    forall i :: 0 <= i < |es| ==> es[i].a < n && es[i].b < n
  }

  /** Every label names a box, and that box carries the label itself:
      each set is named by one of its members. */
  predicate Canonical(l: seq<nat>) {
    forall x :: 0 <= x < |l| ==> l[x] < |l| && l[l[x]] == l[x]
  }

  /** How many of the boxes `0..m` carry label `c`. */
  function ClassSize(l: seq<nat>, c: nat, m: nat): (k: nat)
    requires m <= |l|
    ensures k <= m
  {
    if m == 0 then 0 else ClassSize(l, c, m - 1) + (if l[m - 1] == c then 1 else 0)
  }

  /** The label that survives a quick-find step on the edge `a`-`b`: the
      one of the larger set, the first end's on a tie. */
  function Kept(l: seq<nat>, a: nat, b: nat): nat
    requires a < |l| && b < |l|
  {
    if ClassSize(l, l[a], |l|) < ClassSize(l, l[b], |l|) then l[b] else l[a]
  }

  /** The label that disappears; it is the surviving one itself when both
      ends already share a set. */
  function Dropped(l: seq<nat>, a: nat, b: nat): nat
    requires a < |l| && b < |l|
  {
    if Kept(l, a, b) == l[a] then l[b] else l[a]
  }

  /** One quick-find step for the edge `a`-`b`: every box of the smaller
      set takes the label of the larger one. Afterwards the two ends share
      a label, and two boxes share one exactly when they did before or
      they lie one in each of the two merged sets. */
  function LabelStep(l: seq<nat>, a: nat, b: nat): (l': seq<nat>)
    requires Canonical(l) && a < |l| && b < |l|
    ensures |l'| == |l| && Canonical(l')
    ensures l'[a] == l'[b]
  {
    var big, small := Kept(l, a, b), Dropped(l, a, b);
    assert l[big] == big;
    seq(|l|, x requires 0 <= x < |l| => if l[x] == small then big else l[x])
  }

  /** A box keeps its label unless its set was the one dropped. */
  lemma LabelStepAt(l: seq<nat>, a: nat, b: nat, x: nat)
    requires Canonical(l) && a < |l| && b < |l| && x < |l|
    ensures LabelStep(l, a, b)[x] == if l[x] == Dropped(l, a, b) then Kept(l, a, b) else l[x]
  {
  }

  /** The reference clustering: the quick-find labels once the first `t`
      edges are taken, starting from every box alone. */
  function Labels(n: nat, es: seq<Edge>, t: nat): (l: seq<nat>)
    requires t <= |es| && Ends(es, n)
    ensures |l| == n && Canonical(l)
  {
    if t == 0 then seq(n, x => x)
    else LabelStep(Labels(n, es, t - 1), es[t - 1].a, es[t - 1].b)
  }

  /** Every taken edge ends inside one set of the reference clustering. */
  lemma {:induction false} LabelsJoin(n: nat, es: seq<Edge>, t: nat, i: nat)
    requires t <= |es| && Ends(es, n) && i < t
    ensures Labels(n, es, t)[es[i].a] == Labels(n, es, t)[es[i].b]
  {
    if i < t - 1 {
      LabelsJoin(n, es, t - 1, i);
      LabelStepAt(Labels(n, es, t - 1), es[t - 1].a, es[t - 1].b, es[i].a);
      LabelStepAt(Labels(n, es, t - 1), es[t - 1].a, es[t - 1].b, es[i].b);
    }
  }

  /** The reference clustering is the finest that joins the taken edges:
      any labelling `q` of the boxes under which each of the first `t`
      edges has equal ends puts two boxes of one reference set together. */
  lemma LabelsFinest(n: nat, es: seq<Edge>, t: nat, q: seq<nat>, x: nat, y: nat)
    requires t <= |es| && Ends(es, n) && |q| == n
    requires forall i :: 0 <= i < t ==> q[es[i].a] == q[es[i].b]
    requires x < n && y < n && Labels(n, es, t)[x] == Labels(n, es, t)[y]
    ensures q[x] == q[y]
  {
    QAgreesWithLabel(n, es, t, q);
  }

  /** Under such a labelling `q`, every box agrees with the box that names
      its reference set. */
  lemma {:induction false} QAgreesWithLabel(n: nat, es: seq<Edge>, t: nat, q: seq<nat>)
    requires t <= |es| && Ends(es, n) && |q| == n
    requires forall i :: 0 <= i < t ==> q[es[i].a] == q[es[i].b]
    ensures forall x :: 0 <= x < n ==> q[x] == q[Labels(n, es, t)[x]]
  {
    if t > 0 {
      var l := Labels(n, es, t - 1);
      var a, b := es[t - 1].a, es[t - 1].b;
      QAgreesWithLabel(n, es, t - 1, q);
      forall x | 0 <= x < n
        ensures q[x] == q[Labels(n, es, t)[x]]
      {
        QAgreesStep(l, a, b, q, x);
      }
    }
  }

  /** One quick-find step keeps a box agreeing under `q` with the box that
      names its set, when `q` already agrees on the edge's ends. */
  lemma QAgreesStep(l: seq<nat>, a: nat, b: nat, q: seq<nat>, x: nat)
    requires Canonical(l) && a < |l| && b < |l| && x < |l| && |q| == |l|
    requires q[x] == q[l[x]] && q[a] == q[l[a]] && q[b] == q[l[b]] && q[a] == q[b]
    ensures q[x] == q[LabelStep(l, a, b)[x]]
  {
    LabelStepAt(l, a, b, x);
  }

  /** The set sizes, one per label `0..k` in increasing order. */
  function LabelSizes(l: seq<nat>, k: nat): (s: seq<nat>)
    requires k <= |l|
  {
    if k == 0 then [] else LabelSizes(l, k - 1) + (if l[k - 1] == k - 1 then [ClassSize(l, k - 1, |l|)] else [])
  }

  /** The sizes of the circuits once the `k` shortest edges are joined. */
  function CircuitSizes(ps: seq<Point3D>, k: nat): seq<nat>
  {
    var es := SortEdges(Edges(ps));
    SortedEdgesBounded(ps);
    LabelSizes(Labels(|ps|, es, Min(k, |es|)), |ps|)
  }

  /** The boxes `0..m` whose label is one of `0..k`. */
  ghost function LabelTotal(l: seq<nat>, k: nat, m: nat): nat
    requires k <= |l| && m <= |l|
  {
    if k == 0 then 0 else LabelTotal(l, k - 1, m) + (if l[k - 1] == k - 1 then ClassSize(l, k - 1, m) else 0)
  }

  lemma {:induction false} LabelTotalStep(l: seq<nat>, k: nat, m: nat)
    requires Canonical(l) && k <= |l| && m < |l|
    ensures LabelTotal(l, k, m + 1) == LabelTotal(l, k, m) + (if l[m] < k then 1 else 0)
  {
    if k > 0 {
      LabelTotalStep(l, k - 1, m);
      if l[m] == k - 1 {
        assert l[l[m]] == l[m];
      }
    }
  }

  lemma {:induction false} LabelTotalAll(l: seq<nat>, m: nat)
    requires Canonical(l) && m <= |l|
    ensures LabelTotal(l, |l|, m) == m
  {
    if m > 0 {
      LabelTotalAll(l, m - 1);
      LabelTotalStep(l, |l|, m - 1);
    } else {
      LabelTotalZero(l, |l|);
    }
  }

  lemma {:induction false} LabelTotalZero(l: seq<nat>, k: nat)
    requires k <= |l|
    ensures LabelTotal(l, k, 0) == 0
  {
    if k > 0 {
      LabelTotalZero(l, k - 1);
    }
  }

  /** A label's own box is in its set. */
  lemma {:induction false} ClassHasSelf(l: seq<nat>, c: nat, m: nat)
    requires c < m <= |l| && l[c] == c
    ensures ClassSize(l, c, m) >= 1
  {
    if m - 1 > c {
      ClassHasSelf(l, c, m - 1);
    }
  }

  lemma {:induction false} LabelSizesFacts(l: seq<nat>, k: nat)
    requires Canonical(l) && k <= |l|
    ensures Sum(LabelSizes(l, k)) == LabelTotal(l, k, |l|)
    ensures forall i :: 0 <= i < |LabelSizes(l, k)| ==> LabelSizes(l, k)[i] >= 1
  {
    if k > 0 {
      LabelSizesFacts(l, k - 1);
      var last: seq<nat> := if l[k - 1] == k - 1 then [ClassSize(l, k - 1, |l|)] else [];
      SumConcat(LabelSizes(l, k - 1), last);
      if l[k - 1] == k - 1 {
        ClassHasSelf(l, k - 1, |l|);
      }
    }
  }

  /** The circuits are non-empty and hold every box between them. */
  lemma CircuitSizesFacts(ps: seq<Point3D>, k: nat)
    ensures Sum(CircuitSizes(ps, k)) == |ps|
    ensures forall i :: 0 <= i < |CircuitSizes(ps, k)| ==> CircuitSizes(ps, k)[i] >= 1
  {
    var es := SortEdges(Edges(ps));
    SortedEdgesBounded(ps);
    var l := Labels(|ps|, es, Min(k, |es|));
    LabelSizesFacts(l, |ps|);
    LabelTotalAll(l, |ps|);
  }

  /** Four boxes whose three taken edges form a triangle on the first
      three: the circuits have sizes 3 and 1. */
  lemma TriangleCircuits()
    ensures LabelSizes(Labels(4, [Edge(0, 1, 1), Edge(1, 2, 1), Edge(0, 2, 2)], 3), 4) == [3, 1]
  {
    var es := [Edge(0, 1, 1), Edge(1, 2, 1), Edge(0, 2, 2)];
    assert Labels(4, es, 1) == [0, 0, 2, 3];
  }

  /** Circuits of sizes 3 and 1 give the answer 3. */
  lemma TriangleAnswer()
    ensures Product(Largest([3, 1])) == 3
  {
    var s: seq<nat> := [3, 1];
    assert s[..1] == [3] && [3][..0] == [];
    assert SortDesc([3]) == [3];
    assert SortDesc(s) == InsertDesc([3], 1);
  }

  // ================================================================ union-find against the reference

  /** Every box's representative in `uf` is its reference label. */
  ghost predicate Tracks(uf: UnionFind, rank: seq<nat>, l: seq<nat>)
    requires Valid(uf, rank)
  {
    |l| == |uf.parent| && forall x :: 0 <= x < |l| ==> Root(uf.parent, rank, x) == l[x]
  }

  lemma {:induction false} ClassIsMembers(uf: UnionFind, rank: seq<nat>, l: seq<nat>, c: nat, m: nat)
    requires Valid(uf, rank) && Tracks(uf, rank, l) && m <= |l|
    ensures ClassSize(l, c, m) == Members(uf.parent, rank, c, m)
  {
    if m > 0 {
      ClassIsMembers(uf, rank, l, c, m - 1);
    }
  }

  /** A union and a quick-find step on the same edge keep the union-find
      tracking the labels: both pick the larger set's name, the first on
      a tie. */
  lemma UnionTracks(uf: UnionFind, rank: seq<nat>, l: seq<nat>, a: nat, b: nat)
    requires Valid(uf, rank) && SizesCount(uf, rank) && Tracks(uf, rank, l)
    requires Canonical(l) && a < |l| && b < |l|
    ensures Tracks(Union(uf, a, b, rank).1, UnionRank(uf, a, b, rank), LabelStep(l, a, b))
  {
    var res := Union(uf, a, b, rank);
    var rank' := UnionRank(uf, a, b, rank);
    var l' := LabelStep(l, a, b);
    if !res.0 {
      forall y | 0 <= y < |l|
        ensures Root(res.1.parent, rank', y) == l'[y]
      {
        assert Root(res.1.parent, rank, y) == Root(uf.parent, rank, y);
        LabelStepAt(l, a, b, y);
      }
    } else {
      var ra, rb := l[a], l[b];
      ClassIsMembers(uf, rank, l, ra, |l|);
      ClassIsMembers(uf, rank, l, rb, |l|);
      assert Survivor(uf.size, ra, rb) == Kept(l, a, b);
      forall y | 0 <= y < |l|
        ensures Root(res.1.parent, rank', y) == l'[y]
      {
        LabelStepAt(l, a, b, y);
      }
    }
  }

  /** Sizes read off a union-find that tracks the labels are the
      reference sizes. */
  lemma {:induction false} TrackedSizes(uf: UnionFind, rank: seq<nat>, l: seq<nat>, k: nat)
    requires Valid(uf, rank) && Tracks(uf, rank, l) && k <= |l|
    ensures ComponentList(uf.parent, rank, k) == LabelSizes(l, k)
  {
    if k > 0 {
      TrackedSizes(uf, rank, l, k - 1);
      RootIsSelf(uf.parent, rank, k - 1);
      ClassIsMembers(uf, rank, l, k - 1, |l|);
    }
  }

  // ================================================================ the three largest

  predicate Descending(s: seq<nat>) {
    forall k, l :: 0 <= k < l < |s| ==> s[k] >= s[l]
  }

  /** Puts `v` before the first value smaller than it. */
  function InsertDesc(s: seq<nat>, v: nat): (t: seq<nat>)
    requires Descending(s)
    ensures |t| == |s| + 1
    ensures Descending(t)
    ensures multiset(t) == multiset(s) + multiset{v}
  {
    if |s| == 0 then [v]
    else if v >= s[0] then [v] + s
    else
      var rest := InsertDesc(s[1..], v);
      InsertDescHead(s, v, rest);
      [s[0]] + rest
  }

  lemma InsertDescHead(s: seq<nat>, v: nat, rest: seq<nat>)
    requires |s| > 0 && Descending(s) && s[0] >= v
    requires Descending(rest) && multiset(rest) == multiset(s[1..]) + multiset{v}
    ensures Descending([s[0]] + rest)
    ensures multiset([s[0]] + rest) == multiset(s) + multiset{v}
  {
    assert s == [s[0]] + s[1..];
    forall k | 0 <= k < |rest|
      ensures s[0] >= rest[k]
    {
      assert rest[k] in multiset(rest);
      if rest[k] != v {
        assert rest[k] in multiset(s[1..]);
        var m :| 0 <= m < |s[1..]| && s[1..][m] == rest[k];
        assert s[m + 1] == rest[k];
      }
    }
  }

  /** The descending sort of the component sizes, as insertion sort. */
  function SortDesc(s: seq<nat>): (t: seq<nat>)
    ensures |t| == |s|
    ensures Descending(t)
    ensures multiset(t) == multiset(s)
  {
    if |s| == 0 then []
    else
      assert s == s[..|s| - 1] + [s[|s| - 1]];
      InsertDesc(SortDesc(s[..|s| - 1]), s[|s| - 1])
  }

  /** `into_iter().take(3)` after the descending sort. */
  function Largest(s: seq<nat>): (top: seq<nat>)
    ensures |top| == Min(3, |s|)
  {
    SortDesc(s)[..Min(3, |s|)]
  }

  /** The values taken are values of `s`, in descending order, and none of
      the values left behind is larger than any of them. */
  lemma LargestAreLargest(s: seq<nat>)
    ensures Descending(Largest(s))
    ensures multiset(Largest(s)) <= multiset(s)
    ensures forall i, x :: 0 <= i < |Largest(s)| && x in multiset(s) - multiset(Largest(s)) ==> x <= Largest(s)[i]
  {
    var d := SortDesc(s);
    var m := Min(3, |s|);
    assert d == d[..m] + d[m..];
    assert multiset(d) == multiset(d[..m]) + multiset(d[m..]);
    assert multiset(s) - multiset(d[..m]) == multiset(d[m..]);
    PrefixDominates(d, m);
  }

  /** In a descending sequence every value of a prefix is at least every
      value after it. */
  lemma PrefixDominates(d: seq<nat>, m: nat)
    requires Descending(d) && m <= |d|
    ensures Descending(d[..m])
    ensures forall i, x :: 0 <= i < m && x in multiset(d[m..]) ==> x <= d[..m][i]
  {
    forall i, x | 0 <= i < m && x in multiset(d[m..])
      ensures x <= d[..m][i]
    {
      var j :| 0 <= j < |d[m..]| && d[m..][j] == x;
      assert d[m + j] == x;
    }
  }

  // ================================================================ answer

  /** Sorting keeps every edge between two boxes. */
  lemma SortedEdgesBounded(ps: seq<Point3D>)
    ensures |SortEdges(Edges(ps))| == |Edges(ps)|
    ensures forall i :: 0 <= i < |SortEdges(Edges(ps))| ==>
      SortEdges(Edges(ps))[i].a < |ps| && SortEdges(Edges(ps))[i].b < |ps|
  {
    var edges := SortEdges(Edges(ps));
    forall i | 0 <= i < |edges|
      ensures edges[i].a < |ps| && edges[i].b < |ps|
    {
      assert edges[i] in multiset(edges);
      assert edges[i] in Edges(ps);
    }
  }

  /** The clustering of `solve_first` for boxes `ps`: the product of the
      sizes of the three largest sets after joining the `k` shortest edges.
      No boxes at all underflow `n - 1`. */
  method Solve(ps: seq<Point3D>, k: nat) returns (r: Result<int>)
    ensures |ps| == 0 <==> r == Err(Underflow)
    ensures r.Ok? <==> |ps| > 0
    ensures r.Ok? ==> r.value == Product(Largest(CircuitSizes(ps, k)))
  {
    var n := |ps|;
    if n == 0 {
      return Err(Underflow);
    }
    var edges := SortEdges(Edges(ps));
    SortedEdgesBounded(ps);
    var uf, merges, rank := Cluster(n, edges, k);
    var table, after := ComponentSizes(uf, rank);
    var sizes := RootSizes(table, n);
    RootSizesList(uf.parent, rank, table, n);
    TrackedSizes(uf, rank, Labels(n, edges, Min(k, |edges|)), n);
    r := Ok(Product(Largest(sizes)));
  }

  /** `solve_first(input, k)`: parse failures are the panic of the first
      bad line; otherwise the clustering answer for the boxes. */
  method SolveFirst(input: string, k: nat) returns (r: Result<int>)
    ensures Points(input).Err? ==> r == Err(Points(input).reason)
    ensures Points(input).Ok? ==> r.Ok? == (|Points(input).value| > 0)
    ensures Points(input) == Ok([]) ==> r == Err(Underflow)
    ensures r.Ok? ==> r.value == Product(Largest(CircuitSizes(Points(input).value, k)))
  {
    var parsed := Points(input);
    if parsed.Err? {
      return Err(parsed.reason);
    }
    r := Solve(parsed.value, k);
  }

  /** `Day08::first`. */
  method FirstAnswer(input: string) returns (r: Result<int>)
    ensures r.Ok? <==> Points(input).Ok? && |Points(input).value| > 0
    ensures r.Ok? ==> r.value == Product(Largest(CircuitSizes(Points(input).value, Connections)))
  {
    r := SolveFirst(input, Connections);
  }
}

/** The beam-splitter simulation of `day_07.rs`.

    A grid holds one source 'S'. A beam leaves the source and moves down one
    row at a time; when it meets a splitter '^' it stops and two beams leave
    to the columns on its left and right, on the same row. Beams that would
    leave the grid sideways are dropped (presence mode) or collected in a
    `finished` count (multiplicity mode).

    Both saturation loops of the source run forever when a beam reaches a
    splitter with another '^' beside it (the beam goes back and forth
    between them). The model asks for more: every row below the source has
    no adjacent splitters at all, reached or not. Under that requirement a
    splitter's neighbours are never splitters, which is what makes each
    reached splitter fire exactly once per row. */
module Day07 {
  import opened Results
  import opened Text
  import opened Seqs

  type Grid = seq<seq<char>>

  /** `Simulation`: the grid with its height and width, the row of the
      source, the presence frontier, the per-column timeline counts and the
      number of splits seen so far. */
  datatype Simulation = Simulation(
    cells: Grid,
    h: nat,
    w: nat,
    startRow: nat,
    activeBeams: set<nat>,
    activeTimelines: seq<int>,
    splitCount: int)

  // ================================================================ parsing

  /** `(r, c)` holds the first 'S' of `cells` in row-major order. */
  predicate IsFirstStart(cells: Grid, r: nat, c: nat) {
    && r < |cells|
    && c < |cells[r]|
    && cells[r][c] == 'S'
    && (forall r' :: 0 <= r' < r ==> 'S' !in cells[r'])
    && (forall c' :: 0 <= c' < c ==> cells[r][c'] != 'S')
  }

  /** Some row from `r` on holds an 'S', and every row from `r` up to it has
      width `w`. */
  predicate StartReachable(cells: Grid, w: nat, r: nat) {
    exists r' :: r <= r' < |cells| && 'S' in cells[r'] && forall r'' :: r <= r'' <= r' ==> |cells[r'']| == w
  }

  /** The row loop of `Simulation::parse`: asserts that each row visited has
      width `w` and stops at the first row holding an 'S'. */
  function FindStart(cells: Grid, w: nat, r: nat): (res: Result<(nat, nat)>)
    requires r <= |cells|
    requires forall r' :: 0 <= r' < r ==> 'S' !in cells[r']
    ensures res.Ok? <==> StartReachable(cells, w, r)
    ensures res.Ok? ==> IsFirstStart(cells, res.value.0, res.value.1)
    ensures res.Ok? ==> forall r' :: r <= r' <= res.value.0 ==> |cells[r']| == w
    decreases |cells| - r
  {
    if r == |cells| then Err("No 'S' found")
    else if |cells[r]| != w then Err("row width differs from the first row")
    else
      var c := IndexOf(cells[r], 'S');
      if c < |cells[r]| then Ok((r, c))
      else
        var res := FindStart(cells, w, r + 1);
        assert StartReachable(cells, w, r) ==> StartReachable(cells, w, r + 1) by {
          if StartReachable(cells, w, r) {
            var r' :| r <= r' < |cells| && 'S' in cells[r'] && forall r'' :: r <= r'' <= r' ==> |cells[r'']| == w;
            assert r' != r;
          }
        }
        res
  }

  function Width(cells: Grid): nat {
    if |cells| == 0 then 0 else |cells[0]|
  }

  /** A timeline array of width `w` with a single timeline at column `c`. */
  function UnitTimelines(w: nat, c: nat): seq<int> {
    seq(w, i => if i == c then 1 else 0)
  }

  /** `s` is the state `Simulation::parse` builds around source column `c`. */
  predicate IsInitial(s: Simulation, c: nat) {
    && c < s.w
    && s.activeBeams == {c}
    && |s.activeTimelines| == s.w
    && (forall i :: 0 <= i < s.w ==> s.activeTimelines[i] == (if i == c then 1 else 0))
    && s.splitCount == 0
  }

  /** `Simulation::parse`. */
  function Parse(input: string): (res: Result<Simulation>)
    ensures var cells := Lines(input);
      res.Ok? <==> StartReachable(cells, Width(cells), 0)
    ensures res.Ok? ==>
      var s := res.value;
      && s.cells == Lines(input)
      && s.h == |s.cells|
      && s.w == Width(s.cells)
      && s.startRow < s.h
      && exists c :: IsFirstStart(s.cells, s.startRow, c) && IsInitial(s, c)
  {
    var cells := Lines(input);
    var w := Width(cells);
    var start :- FindStart(cells, w, 0);
    var s := Simulation(cells, |cells|, w, start.0, {start.1}, UnitTimelines(w, start.1), 0);
    assert IsInitial(s, start.1);
    Ok(s)
  }

  // ================================================================ rows

  /** `at(r, c) == b'^'` for a column `c` inside the row. */
  predicate IsSplitter(row: seq<char>, c: int) {
    0 <= c < |row| && row[c] == '^'
  }

  /** No two splitters stand side by side on `row`. */
  predicate NoAdjacentSplitters(row: seq<char>) {
    forall c :: 0 <= c < |row| - 1 ==> !SplitterPair(row, c)
  }

  /** Columns `c` and `c + 1` both hold a splitter. */
  predicate SplitterPair(row: seq<char>, c: nat)
    requires c + 1 < |row|
  {
    row[c] == '^' && row[c + 1] == '^'
  }

  /** A splitter of a row without adjacent splitters has none beside it. */
  lemma Isolated(row: seq<char>, c: nat)
    requires NoAdjacentSplitters(row) && IsSplitter(row, c)
    ensures !IsSplitter(row, (c as int) - 1) && !IsSplitter(row, c + 1)
  {
    if c >= 1 {
      assert !SplitterPair(row, c - 1);
    }
    if c + 1 < |row| {
      assert !SplitterPair(row, c);
    }
  }

  /** `in_bounds_col`. */
  predicate InBoundsCol(w: nat, c: int) {
    0 <= c < w
  }

  /** The columns next to `c` that lie inside `[0, w)`. */
  function Lateral(c: nat, w: nat): set<nat> {
    (if c >= 1 && c - 1 < w then {c - 1} else {}) + (if c + 1 < w then {c + 1} else {})
  }

  /** The columns reached by the beams split at the columns of `hits`. */
  function Spread(hits: set<nat>, w: nat): set<nat> {
    set d: nat | d < w && NextToHit(hits, d)
  }

  /** Column `d` stands right next to a column of `hits`. */
  predicate NextToHit(hits: set<nat>, d: nat) {
    (d >= 1 && d - 1 in hits) || d + 1 in hits
  }

  /** Splitting one more column adds its in-bounds neighbours. */
  lemma SpreadAdd(hits: set<nat>, c: nat, w: nat)
    ensures Spread(hits + {c}, w) == Spread(hits, w) + Lateral(c, w)
  {
    forall d | d in Spread(hits, w) + Lateral(c, w)
      ensures d in Spread(hits + {c}, w)
    {
      assert NextToHit(hits + {c}, d);
    }
  }

  /** The frontier bookkeeping of one split: removing `c` and adding its
      neighbours moves `c` from the unsplit beams to the split ones. */
  lemma FrontierStep(row: seq<char>, active0: set<nat>, done: set<nat>, c: nat)
    requires NoAdjacentSplitters(row) && WithinRow(row, active0)
    requires done <= Hits(row, active0)
    requires c in (active0 - done) + Spread(done, |row|) && IsSplitter(row, c)
    ensures c in Hits(row, active0) - done
    ensures WithinRow(row, (active0 - (done + {c})) + Spread(done + {c}, |row|))
    ensures ((active0 - done) + Spread(done, |row|)) - {c} + Lateral(c, |row|)
         == (active0 - (done + {c})) + Spread(done + {c}, |row|)
    ensures |Hits(row, active0) - (done + {c})| < |Hits(row, active0) - done|
  {
    Isolated(row, c);
    assert c !in Spread(done, |row|);
    SpreadAdd(done, c, |row|);
    assert Hits(row, active0) - (done + {c}) < Hits(row, active0) - done;
  }

  /** The beams of `active` that stand on a splitter of `row`. */
  function Hits(row: seq<char>, active: set<nat>): set<nat> {
    set c | c in active && IsSplitter(row, c)
  }

  predicate WithinRow(row: seq<char>, active: set<nat>) {
    forall c :: c in active ==> c < |row|
  }

  /** The frontier and the number of splits after `resolve_row_splitters`
      has saturated `row`: every beam on a splitter is replaced by the beams
      on its in-bounds neighbours. */
  function PresenceRow(row: seq<char>, active: set<nat>): (set<nat>, nat) {
    var hits := Hits(row, active);
    ((active - hits) + Spread(hits, |row|), |hits|)
  }

  /** A saturated row keeps its frontier inside the grid and leaves no beam
      on a splitter. */
  lemma PresenceRowSaturates(row: seq<char>, active: set<nat>)
    requires NoAdjacentSplitters(row) && WithinRow(row, active)
    ensures var next := PresenceRow(row, active).0;
      WithinRow(row, next) && forall c :: c in next ==> !IsSplitter(row, c)
  {
    var hits := Hits(row, active);
    forall d | d in Spread(hits, |row|)
      ensures !IsSplitter(row, d)
    {
      if d >= 1 && d - 1 in hits {
        Isolated(row, d - 1);
      } else {
        Isolated(row, d + 1);
      }
    }
  }

  /** Saturating a row twice changes nothing the second time. */
  lemma PresenceRowIdempotent(row: seq<char>, active: set<nat>)
    requires NoAdjacentSplitters(row) && WithinRow(row, active)
    ensures var next := PresenceRow(row, active).0;
      PresenceRow(row, next) == (next, 0)
  {
    var next := PresenceRow(row, active).0;
    PresenceRowSaturates(row, active);
    assert Hits(row, next) == {};
    assert Spread({}, |row|) == {};
    assert next - {} + {} == next;
  }

  /** `resolve_row_splitters`: while some beam of the frontier stands on a
      splitter of row `r`, remove it, count a split and add its in-bounds
      neighbours. The set is unordered, so the beam is chosen freely. */
  method ResolveRowSplitters(sim: Simulation, r: nat) returns (next: Simulation)
    requires r < |sim.cells| && |sim.cells[r]| == sim.w
    requires NoAdjacentSplitters(sim.cells[r])
    requires WithinRow(sim.cells[r], sim.activeBeams)
    ensures next == sim.(activeBeams := PresenceRow(sim.cells[r], sim.activeBeams).0,
                         splitCount := sim.splitCount + PresenceRow(sim.cells[r], sim.activeBeams).1)
    ensures WithinRow(sim.cells[r], next.activeBeams)
    ensures forall c :: c in next.activeBeams ==> sim.cells[r][c] != '^'
    ensures next.splitCount >= sim.splitCount
  {
    var row := sim.cells[r];
    var active := sim.activeBeams;
    var splits := sim.splitCount;
    ghost var hits := Hits(row, sim.activeBeams);
    ghost var done: set<nat> := {};
    while true
      invariant done <= hits
      invariant active == (sim.activeBeams - done) + Spread(done, |row|)
      invariant WithinRow(row, active)
      invariant splits == sim.splitCount + |done|
      decreases |hits - done|
    {
      if !exists c :: c in active && IsSplitter(row, c) {
        break;
      }
      var c :| c in active && IsSplitter(row, c);
      FrontierStep(row, sim.activeBeams, done, c);
      active := SplitBeam(active, c, sim.w);
      splits := splits + 1;
      done := done + {c};
    }
    SaturatedFrontier(row, sim.activeBeams, done, active);
    next := sim.(activeBeams := active, splitCount := splits);
  }

  /** The body of the loop of `resolve_row_splitters` after the split beam
      `c` is found: remove it and add its in-bounds neighbours. */
  method SplitBeam(active: set<nat>, c: nat, w: nat) returns (next: set<nat>)
    ensures next == active - {c} + Lateral(c, w)
  {
    next := active - {c};
    var left: int := (c as int) - 1;
    var right: int := c + 1;
    if InBoundsCol(w, left) {
      next := next + {left as nat};
    }
    if InBoundsCol(w, right) {
      next := next + {right as nat};
    }
  }

  /** When no beam of the frontier stands on a splitter any more, every
      beam that reached a splitter has been split: the frontier is the
      closed form of the saturated row. */
  lemma SaturatedFrontier(row: seq<char>, active0: set<nat>, done: set<nat>, active: set<nat>)
    requires done <= Hits(row, active0)
    requires active == (active0 - done) + Spread(done, |row|)
    requires !exists c :: c in active && IsSplitter(row, c)
    ensures done == Hits(row, active0)
    ensures active == PresenceRow(row, active0).0
    ensures |done| == PresenceRow(row, active0).1
  {
    forall c | c in Hits(row, active0)
      ensures c in done
    {
      assert c in active0;
    }
  }

  // ---------------------------------------------------------------- multiplicity

  /** The columns whose timelines a splitter of `row` consumes. */
  function Fired(row: seq<char>, counts: seq<int>): (fire: set<nat>)
    ensures forall c :: c in fire ==> c < |counts| && counts[c] > 0 && IsSplitter(row, c)
  {
    set c: nat | c < |counts| && counts[c] > 0 && IsSplitter(row, c)
  }

  /** Timeline counts after each splitter column of `fired` has passed its
      count to both neighbours and dropped to zero. */
  function AfterFiring(counts: seq<int>, fired: set<nat>): (r: seq<int>)
    ensures |r| == |counts|
  {
    seq(|counts|, d requires 0 <= d < |counts| =>
      if d in fired then 0 else counts[d] + Inflow(counts, fired, d))
  }

  /** What column `d` receives from its fired neighbours. */
  function Inflow(counts: seq<int>, fired: set<nat>, d: nat): int
    requires d < |counts|
  {
    (if d >= 1 && d - 1 in fired then counts[d - 1] else 0)
    + (if d + 1 < |counts| && d + 1 in fired then counts[d + 1] else 0)
  }

  /** Timelines that leave the grid sideways when the columns of `fired`
      split: the left side of column 0 and the right side of the last one. */
  function ExitsAfterFiring(counts: seq<int>, fired: set<nat>): int {
    if |counts| == 0 then 0
    else (if 0 in fired then counts[0] else 0) + (if |counts| - 1 in fired then counts[|counts| - 1] else 0)
  }

  /** Counts after `resolve_row_splitters_quantum` has saturated `row`. */
  function QuantumRow(row: seq<char>, counts: seq<int>): seq<int> {
    AfterFiring(counts, Fired(row, counts))
  }

  /** What `resolve_row_splitters_quantum` adds to `finished` on `row`. */
  function QuantumExits(row: seq<char>, counts: seq<int>): int {
    ExitsAfterFiring(counts, Fired(row, counts))
  }

  /** Sum of the counts that stand on a splitter among the first `n` columns. */
  function FiredMassUpTo(row: seq<char>, counts: seq<int>, n: nat): int
    requires n <= |counts|
  {
    if n == 0 then 0
    else FiredMassUpTo(row, counts, n - 1) + (if counts[n - 1] > 0 && IsSplitter(row, n - 1) then counts[n - 1] else 0)
  }

  /** Sum of the counts consumed by splitters on `row`. */
  function FiredMass(row: seq<char>, counts: seq<int>): int {
    FiredMassUpTo(row, counts, |counts|)
  }

  /** The effect of one split of column `c` holding `t` timelines on the
      array: `c` drops to zero and each in-bounds neighbour gains `t`. */
  function SplitAt(cur: seq<int>, c: nat, t: int): (r: seq<int>)
    requires c < |cur|
    ensures |r| == |cur|
  {
    AddAt(AddAt(cur[c := 0], (c as int) - 1, t), c + 1, t)
  }

  /** `t` added to slot `i`, when `i` is a slot of `s`. */
  function AddAt(s: seq<int>, i: int, t: int): (r: seq<int>)
    ensures |r| == |s|
    ensures forall d :: 0 <= d < |s| ==> r[d] == if d == i then s[d] + t else s[d]
    ensures Sum(r) == Sum(s) + (if 0 <= i < |s| then t else 0)
  {
    if 0 <= i < |s| then
      SumUpdate(s, i, s[i] + t);
      s[i := s[i] + t]
    else s
  }

  /** What one split of column `c` holding `t` adds to `finished`. */
  function SplitExits(w: nat, c: nat, t: int): int {
    (if c == 0 then t else 0) + (if c + 1 == w then t else 0)
  }

  /** Firing one more splitter `c`, none of whose neighbours has fired,
      takes its untouched count `t` and spills it to both sides. */
  lemma FireOne(row: seq<char>, counts: seq<int>, fired: set<nat>, c: nat)
    requires |counts| == |row| && NoAdjacentSplitters(row)
    requires IsSplitter(row, c) && c !in fired
    requires forall d :: d in fired ==> IsSplitter(row, d)
    ensures AfterFiring(counts, fired)[c] == counts[c]
    ensures AfterFiring(counts, fired + {c}) == SplitAt(AfterFiring(counts, fired), c, counts[c])
    ensures ExitsAfterFiring(counts, fired + {c}) == ExitsAfterFiring(counts, fired) + SplitExits(|row|, c, counts[c])
  {
    Isolated(row, c);
    assert c >= 1 ==> c - 1 !in fired;
    assert c + 1 !in fired;
    var lhs := AfterFiring(counts, fired + {c});
    var rhs := SplitAt(AfterFiring(counts, fired), c, counts[c]);
    forall d | 0 <= d < |counts|
      ensures lhs[d] == rhs[d]
    {
      FireOneAt(counts, fired, c, d);
    }
  }

  /** `FireOne`, one column `d` at a time. */
  lemma FireOneAt(counts: seq<int>, fired: set<nat>, c: nat, d: nat)
    requires c < |counts| && d < |counts| && c !in fired && c + 1 !in fired
    requires c >= 1 ==> c - 1 !in fired
    ensures AfterFiring(counts, fired + {c})[d] == SplitAt(AfterFiring(counts, fired), c, counts[c])[d]
  {
    var cur := AfterFiring(counts, fired);
    assert cur[c] == counts[c];
    if d + 1 == c || d == c + 1 {
      assert Inflow(counts, fired + {c}, d) == Inflow(counts, fired, d) + counts[c];
    } else if d != c {
      assert Inflow(counts, fired + {c}, d) == Inflow(counts, fired, d);
    }
  }

  /** One split adds exactly `t` to `finished + sum(counts)`: `t` leaves
      column `c` and `t` arrives on each side. */
  lemma SplitGrowth(cur: seq<int>, c: nat, t: int)
    requires c < |cur| && cur[c] == t
    ensures Sum(SplitAt(cur, c, t)) + SplitExits(|cur|, c, t) == Sum(cur) + t
  {
    SumUpdate(cur, c, 0);
  }

  /** `resolve_row_splitters_quantum`: queue the splitter columns of row `r`
      that hold timelines, then drain the queue; a drained column passes
      its count `t` to each neighbour, or to `finished` when the neighbour
      is outside the grid, and drops to zero. */
  method ResolveRowSplittersQuantum(sim: Simulation, r: nat, finished: int) returns (next: Simulation, finishedOut: int)
    requires r < |sim.cells| && |sim.cells[r]| == sim.w == |sim.activeTimelines|
    requires NoAdjacentSplitters(sim.cells[r])
    requires AllNonNegative(sim.activeTimelines)
    ensures next == sim.(activeTimelines := QuantumRow(sim.cells[r], sim.activeTimelines))
    ensures finishedOut == finished + QuantumExits(sim.cells[r], sim.activeTimelines)
    ensures finishedOut >= finished
    ensures AllNonNegative(next.activeTimelines)
    ensures forall c :: 0 <= c < sim.w && next.activeTimelines[c] > 0 ==> sim.cells[r][c] != '^'
  {
    var row := sim.cells[r];
    var counts := sim.activeTimelines;
    var queue := QueueSplitters(row, counts);
    var cur, fin := DrainQueue(row, counts, queue, finished);
    QuantumRowFacts(row, counts);
    next := sim.(activeTimelines := cur);
    finishedOut := fin;
  }

  /** The first loop of `resolve_row_splitters_quantum`: the splitter
      columns holding timelines, left to right. */
  method QueueSplitters(row: seq<char>, counts: seq<int>) returns (queue: seq<nat>)
    requires |counts| == |row|
    ensures forall i :: 0 <= i < |queue| ==> queue[i] < |row|
    ensures forall d :: d in queue <==> d in Fired(row, counts)
    ensures Increasing(queue)
  {
    queue := [];
    var c := 0;
    while c < |row|
      invariant c <= |row|
      invariant queue == FiringOrder(row, counts, c)
    {
      if counts[c] > 0 && row[c] == '^' {
        queue := queue + [c];
      }
      c := c + 1;
    }
    FiringOrderSorted(row, counts, |row|);
    FiringOrderMembers(row, counts, |row|);
  }

  /** The splitter columns among the first `n` that hold timelines, in
      increasing order. */
  function FiringOrder(row: seq<char>, counts: seq<int>, n: nat): (q: seq<nat>)
    requires n <= |counts| == |row|
    ensures forall i :: 0 <= i < |q| ==> q[i] < n
  {
    if n == 0 then []
    else FiringOrder(row, counts, n - 1) + (if counts[n - 1] > 0 && row[n - 1] == '^' then [n - 1] else [])
  }

  predicate Increasing(q: seq<nat>) {
    forall i, j :: 0 <= i < j < |q| ==> q[i] < q[j]
  }

  /** `FiringOrder` is strictly increasing. */
  lemma {:induction false} FiringOrderSorted(row: seq<char>, counts: seq<int>, n: nat)
    requires n <= |counts| == |row|
    ensures Increasing(FiringOrder(row, counts, n))
  {
    if n > 0 {
      FiringOrderSorted(row, counts, n - 1);
      var p := FiringOrder(row, counts, n - 1);
      assert Increasing(p);
      if counts[n - 1] > 0 && row[n - 1] == '^' {
        var q := p + [n - 1];
        assert q == FiringOrder(row, counts, n);
        forall i, j | 0 <= i < j < |q|
          ensures q[i] < q[j]
        {
          if j == |p| {
            assert q[i] == p[i] < n - 1;
          } else {
            assert q[i] == p[i] && q[j] == p[j];
          }
        }
      } else {
        assert FiringOrder(row, counts, n) == p;
      }
    }
  }

  /** `FiringOrder` holds exactly the columns below `n` that fire. */
  lemma {:induction false} FiringOrderMembers(row: seq<char>, counts: seq<int>, n: nat)
    requires n <= |counts| == |row|
    ensures forall d :: d in FiringOrder(row, counts, n) <==> d < n && d in Fired(row, counts)
  {
    if n > 0 {
      FiringOrderMembers(row, counts, n - 1);
    }
  }

  /** The second loop of `resolve_row_splitters_quantum`: every queued
      splitter spills its timelines once, so the array ends as
      `AfterFiring` of the whole queue. */
  method DrainQueue(row: seq<char>, counts: seq<int>, queue: seq<nat>, finished: int)
      returns (cur: seq<int>, fin: int)
    requires |counts| == |row| && NoAdjacentSplitters(row)
    requires forall i :: 0 <= i < |queue| ==> queue[i] < |row|
    requires forall d :: d in queue <==> d in Fired(row, counts)
    requires Increasing(queue)
    ensures cur == AfterFiring(counts, Fired(row, counts))
    ensures fin == finished + ExitsAfterFiring(counts, Fired(row, counts))
  {
    ghost var k: nat := 0;
    var q := queue;
    cur := counts;
    fin := finished;
    assert Elems(queue[..0]) == {};
    while |q| > 0
      invariant k <= |queue| && q == queue[k..]
      invariant Drained(counts, queue, k, cur, fin, finished)
      decreases |q|
    {
      var c: nat := q[0];
      q := q[1..];
      DrainAdvance(row, counts, queue, k, cur, fin, finished);
      var t := cur[c];
      if t == 0 {
        continue;
      }
      if row[c] != '^' {
        continue;
      }
      var pushed;
      cur, fin, pushed := SpillTimelines(row, cur, c, t, fin);
      q := q + pushed;
      k := k + 1;
    }
    assert queue[..k] == queue;
    assert Elems(queue) == Fired(row, counts);
  }

  /** The columns a queue holds. */
  function Elems(q: seq<nat>): (e: set<nat>)
    ensures forall d :: d in e <==> d in q
  {
    set d: nat | d in q
  }

  /** The drain loop has fired the first `k` queued columns: the array and
      `finished` are those of `AfterFiring` for them. */
  ghost predicate Drained(counts: seq<int>, queue: seq<nat>, k: nat, cur: seq<int>, fin: int, finished: int)
    requires k <= |queue|
  {
    && cur == AfterFiring(counts, Elems(queue[..k]))
    && fin == finished + ExitsAfterFiring(counts, Elems(queue[..k]))
  }

  /** One turn of the drain loop: the next queued column still holds its
      original positive count, and splitting it fires one more column. */
  lemma DrainAdvance(row: seq<char>, counts: seq<int>, queue: seq<nat>, k: nat, cur: seq<int>, fin: int, finished: int)
    requires |counts| == |row| && NoAdjacentSplitters(row)
    requires forall i :: 0 <= i < |queue| ==> queue[i] < |row|
    requires forall d :: d in queue ==> d in Fired(row, counts)
    requires Increasing(queue)
    requires k < |queue| && Drained(counts, queue, k, cur, fin, finished)
    ensures var c := queue[k];
      && IsSplitter(row, c) && cur[c] == counts[c] > 0
      && Drained(counts, queue, k + 1, SplitAt(cur, c, cur[c]), fin + SplitExits(|row|, c, cur[c]), finished)
  {
    var c := queue[k];
    var fired := Elems(queue[..k]);
    PrefixFacts(row, counts, queue, k);
    FireOne(row, counts, fired, c);
    DrainStep(queue, k, c);
    assert Elems(queue[..k + 1]) == fired + {c};
  }

  /** The columns drained before the `k`-th are splitters, and the `k`-th
      is not among them. */
  lemma PrefixFacts(row: seq<char>, counts: seq<int>, queue: seq<nat>, k: nat)
    requires forall d :: d in queue ==> d in Fired(row, counts)
    requires Increasing(queue)
    requires k < |queue|
    ensures queue[k] in Fired(row, counts)
    ensures queue[k] !in Elems(queue[..k])
    ensures forall d :: d in Elems(queue[..k]) ==> IsSplitter(row, d)
  {
    var c := queue[k];
    assert queue[k] in queue;
    forall i | 0 <= i < k
      ensures queue[..k][i] != c
    {
      assert queue[..k][i] == queue[i] < queue[k];
    }
    forall d | d in Elems(queue[..k])
      ensures IsSplitter(row, d)
    {
      assert d in queue[..k];
      var i :| 0 <= i < k && queue[..k][i] == d;
      assert queue[i] in queue;
    }
  }

  /** The body of the drain loop of `resolve_row_splitters_quantum` for a
      splitter column `c` holding `t` timelines: `c` drops to zero, each
      neighbour gains `t` (or `finished` does, for a neighbour outside the
      row), and a neighbour that is itself a splitter is queued. */
  method SpillTimelines(row: seq<char>, cur: seq<int>, c: nat, t: int, finished: int)
      returns (next: seq<int>, finishedOut: int, pushed: seq<nat>)
    requires |cur| == |row| && IsSplitter(row, c) && NoAdjacentSplitters(row)
    ensures next == SplitAt(cur, c, t)
    ensures finishedOut == finished + SplitExits(|row|, c, t)
    ensures pushed == []
  {
    Isolated(row, c);
    var w := |row|;
    next := cur[c := 0];
    finishedOut := finished;
    pushed := [];
    var left: int := (c as int) - 1;
    var right: int := c + 1;
    if InBoundsCol(w, left) {
      var lc := left as nat;
      next := next[lc := next[lc] + t];
      if row[lc] == '^' {
        pushed := pushed + [lc];
      }
    } else {
      finishedOut := finishedOut + t;
    }
    if InBoundsCol(w, right) {
      var rc := right as nat;
      next := next[rc := next[rc] + t];
      if row[rc] == '^' {
        pushed := pushed + [rc];
      }
    } else {
      finishedOut := finishedOut + t;
    }
  }

  /** The ghost bookkeeping of one drain step: the drained prefix of the
      queue grows by its next column. */
  lemma DrainStep(queue: seq<nat>, k: nat, c: nat)
    requires k < |queue| && queue[k] == c
    ensures forall d :: d in queue[..k + 1] <==> d in queue[..k] || d == c
  {
    assert queue[..k + 1] == queue[..k] + [c];
  }

  /** Saturating a row with non-negative counts keeps them non-negative,
      sends a non-negative number of timelines out of the grid and leaves
      no timeline standing on a splitter. */
  lemma QuantumRowFacts(row: seq<char>, counts: seq<int>)
    requires |counts| == |row| && NoAdjacentSplitters(row) && AllNonNegative(counts)
    ensures AllNonNegative(QuantumRow(row, counts))
    ensures QuantumExits(row, counts) >= 0
    ensures forall c :: 0 <= c < |row| && QuantumRow(row, counts)[c] > 0 ==> row[c] != '^'
  {
    var next := QuantumRow(row, counts);
    var fired := Fired(row, counts);
    forall c | 0 <= c < |row| && row[c] == '^'
      ensures next[c] == 0
    {
      if c !in fired {
        Isolated(row, c);
        assert c >= 1 ==> c - 1 !in fired;
        assert c + 1 !in fired;
      }
    }
  }

  /** The timeline counts of a saturated row stay non-negative, leave no
      timeline on a splitter, and a second saturation changes nothing. */
  lemma QuantumRowIdempotent(row: seq<char>, counts: seq<int>)
    requires |counts| == |row| && NoAdjacentSplitters(row) && AllNonNegative(counts)
    ensures var next := QuantumRow(row, counts);
      && AllNonNegative(next)
      && QuantumRow(row, next) == next
      && QuantumExits(row, next) == 0
  {
    var next := QuantumRow(row, counts);
    QuantumRowFacts(row, counts);
    assert Fired(row, next) == {};
    NothingFired(next);
  }

  /** The columns that hold at least one timeline. */
  function Support(counts: seq<int>): set<nat> {
    set c: nat | c < |counts| && counts[c] > 0
  }

  /** On one row the two modes agree: the columns holding timelines after
      the multiplicity step are the frontier after the presence step. */
  lemma SupportAfterRow(row: seq<char>, counts: seq<int>)
    requires |counts| == |row| && NoAdjacentSplitters(row) && AllNonNegative(counts)
    ensures Support(QuantumRow(row, counts)) == PresenceRow(row, Support(counts)).0
  {
    var next := QuantumRow(row, counts);
    var frontier := PresenceRow(row, Support(counts)).0;
    FiredAreHits(row, counts);
    forall d: nat | d < |counts|
      ensures d in Support(next) <==> d in frontier
    {
      SupportColumn(row, counts, d);
    }
    assert forall d :: d in frontier ==> d < |counts|;
  }

  /** The splitters that fire are the splitters the presence frontier hits. */
  lemma FiredAreHits(row: seq<char>, counts: seq<int>)
    requires |counts| == |row|
    ensures Fired(row, counts) == Hits(row, Support(counts))
  {
  }

  /** `SupportAfterRow` for one column `d`. */
  lemma SupportColumn(row: seq<char>, counts: seq<int>, d: nat)
    requires |counts| == |row| && NoAdjacentSplitters(row) && AllNonNegative(counts)
    requires Fired(row, counts) == Hits(row, Support(counts))
    requires d < |counts|
    ensures d in Support(QuantumRow(row, counts)) <==> d in PresenceRow(row, Support(counts)).0
  {
    var fired := Fired(row, counts);
    var next := QuantumRow(row, counts);
    var left := d >= 1 && d - 1 in fired;
    var right := d + 1 < |counts| && d + 1 in fired;
    if left {
      Isolated(row, d - 1);
    }
    if right {
      Isolated(row, d + 1);
    }
    assert next[d] == if d in fired then 0 else counts[d] + Inflow(counts, fired, d);
    assert d in Spread(fired, |row|) <==> left || right;
  }

  /** Saturating a row adds exactly the consumed counts to
      `finished + sum(counts)`: each fired splitter's count leaves its column
      and arrives twice, once on each side. */
  lemma QuantumGrowth(row: seq<char>, counts: seq<int>)
    requires |counts| == |row| && NoAdjacentSplitters(row)
    ensures QuantumExits(row, counts) + Sum(QuantumRow(row, counts))
         == Sum(counts) + FiredMass(row, counts)
  {
    GrowthBelow(row, counts, |row|);
    assert FiredBelow(row, counts, |row|) == Fired(row, counts);
  }

  /** `QuantumGrowth` for the splitters among the first `n` columns. */
  lemma {:induction false} GrowthBelow(row: seq<char>, counts: seq<int>, n: nat)
    requires n <= |counts| == |row| && NoAdjacentSplitters(row)
    ensures var fired := FiredBelow(row, counts, n);
      ExitsAfterFiring(counts, fired) + Sum(AfterFiring(counts, fired))
        == Sum(counts) + FiredMassUpTo(row, counts, n)
  {
    if n == 0 {
      NothingFired(counts);
      assert FiredBelow(row, counts, 0) == {};
    } else {
      GrowthBelow(row, counts, n - 1);
      var fired := FiredBelow(row, counts, n - 1);
      var c := n - 1;
      if counts[c] > 0 && IsSplitter(row, c) {
        assert FiredBelow(row, counts, n) == fired + {c};
        GrowthStep(row, counts, fired, c);
      } else {
        assert FiredBelow(row, counts, n) == fired;
      }
    }
  }

  /** With nothing fired the counts are untouched. */
  lemma NothingFired(counts: seq<int>)
    ensures AfterFiring(counts, {}) == counts
    ensures ExitsAfterFiring(counts, {}) == 0
  {
  }

  /** Firing one more splitter adds its count to the total. */
  lemma GrowthStep(row: seq<char>, counts: seq<int>, fired: set<nat>, c: nat)
    requires |counts| == |row| && NoAdjacentSplitters(row)
    requires IsSplitter(row, c) && c !in fired
    requires forall d :: d in fired ==> IsSplitter(row, d)
    ensures ExitsAfterFiring(counts, fired + {c}) + Sum(AfterFiring(counts, fired + {c}))
         == ExitsAfterFiring(counts, fired) + Sum(AfterFiring(counts, fired)) + counts[c]
  {
    FireOne(row, counts, fired, c);
    SplitGrowth(AfterFiring(counts, fired), c, counts[c]);
  }

  /** Every fired splitter consumes at least one timeline, so a row consumes
      at least as many timelines as it has fired splitters. */
  lemma {:induction false} FiredMassAtLeast(row: seq<char>, counts: seq<int>, n: nat)
    requires n <= |counts| == |row|
    ensures FiredMassUpTo(row, counts, n) >= |FiredBelow(row, counts, n)|
  {
    if n > 0 {
      FiredMassAtLeast(row, counts, n - 1);
      if counts[n - 1] > 0 && IsSplitter(row, n - 1) {
        assert FiredBelow(row, counts, n) == FiredBelow(row, counts, n - 1) + {n - 1};
      } else {
        assert FiredBelow(row, counts, n) == FiredBelow(row, counts, n - 1);
      }
    }
  }

  /** The fired columns below `n`. */
  function FiredBelow(row: seq<char>, counts: seq<int>, n: nat): set<nat>
    requires n <= |counts|
  {
    set c: nat | c < n && counts[c] > 0 && IsSplitter(row, c)
  }

  // ================================================================ runs

  /** No row from `r` down has two splitters side by side. */
  predicate RowsFrom(cells: Grid, r: nat) {
    forall r' :: r <= r' < |cells| ==> NoAdjacentSplitters(cells[r'])
  }

  /** The grid can be simulated: if it parses, no row below the source has
      adjacent splitters. Both loops of the source diverge only when a beam
      reaches such a pair; this condition also excludes pairs no beam
      reaches. */
  predicate Simulable(input: string) {
    var parsed := Parse(input);
    parsed.Ok? ==> RowsFrom(parsed.value.cells, parsed.value.startRow + 1)
  }

  /** The row loop of `first` from row `r` on, with frontier `active` and
      `splits` splits so far: every row is saturated in turn, and the loop
      stops after the row that empties the frontier. A row of another width
      than the first is an error. */
  function BeamRun(cells: Grid, w: nat, r: nat, active: set<nat>, splits: int): (res: Result<int>)
    requires RowsFrom(cells, r)
    requires forall c :: c in active ==> c < w
    ensures res.Ok? ==> res.value >= splits
    decreases |cells| - r
  {
    if r >= |cells| then Ok(splits)
    else if |cells[r]| != w then Err("row width differs from the first row")
    else
      var step := PresenceRow(cells[r], active);
      if step.0 == {} then Ok(splits + step.1)
      else BeamRun(cells, w, r + 1, step.0, splits + step.1)
  }

  /** Every count is zero. */
  predicate AllZero(counts: seq<int>) {
    forall i :: 0 <= i < |counts| ==> counts[i] == 0
  }

  /** The row loop of `second` from row `r` on, with timeline counts
      `counts` and `finished` timelines that have left the grid so far; the
      answer is `finished` plus the timelines still in the grid. */
  function TimelineRun(cells: Grid, w: nat, r: nat, counts: seq<int>, finished: int): (res: Result<int>)
    requires RowsFrom(cells, r) && |counts| == w
    decreases |cells| - r
  {
    if r >= |cells| then Ok(finished + Sum(counts))
    else if |cells[r]| != w then Err("row width differs from the first row")
    else
      var row := cells[r];
      var next := QuantumRow(row, counts);
      var fin := finished + QuantumExits(row, counts);
      if AllZero(next) then Ok(fin + Sum(next))
      else TimelineRun(cells, w, r + 1, next, fin)
  }

  /** The answer of `first`. */
  function FirstAnswer(input: string): Result<int>
    requires Simulable(input)
  {
    var sim :- Parse(input);
    BeamRun(sim.cells, sim.w, sim.startRow + 1, sim.activeBeams, sim.splitCount)
  }

  /** The answer of `second`. */
  function SecondAnswer(input: string): Result<int>
    requires Simulable(input)
  {
    var sim :- Parse(input);
    TimelineRun(sim.cells, sim.w, sim.startRow + 1, sim.activeTimelines, 0)
  }

  /** `Day07::first`: parse, then saturate the rows below the source one by
      one until the frontier is empty. */
  method First(input: string) returns (res: Result<int>)
    requires Simulable(input)
    ensures res == FirstAnswer(input)
  {
    var parsed := Parse(input);
    if parsed.Err? {
      return Err(parsed.reason);
    }
    var sim := parsed.value;
    res := RunBeams(sim, sim.startRow + 1);
  }

  /** The row loop of `first`, from row `from` on. */
  method RunBeams(sim0: Simulation, from: nat) returns (res: Result<int>)
    requires sim0.h == |sim0.cells| && RowsFrom(sim0.cells, from)
    requires forall c :: c in sim0.activeBeams ==> c < sim0.w
    ensures res == BeamRun(sim0.cells, sim0.w, from, sim0.activeBeams, sim0.splitCount)
  {
    ghost var total := BeamRun(sim0.cells, sim0.w, from, sim0.activeBeams, sim0.splitCount);
    var sim := sim0;
    var r := from;
    while r < sim.h
      invariant sim.cells == sim0.cells && sim.h == sim0.h && sim.w == sim0.w
      invariant RowsFrom(sim.cells, r) && forall c :: c in sim.activeBeams ==> c < sim.w
      invariant BeamRun(sim.cells, sim.w, r, sim.activeBeams, sim.splitCount) == total
      decreases sim.h - r
    {
      if |sim.cells[r]| != sim.w {
        BeamRunRagged(sim.cells, sim.w, r, sim.activeBeams, sim.splitCount);
        return Err("row width differs from the first row");
      }
      var empty: bool;
      sim, empty := BeamRow(sim, r, total);
      if empty {
        return Ok(sim.splitCount);
      }
      r := r + 1;
    }
    BeamRunEnd(sim.cells, sim.w, r, sim.activeBeams, sim.splitCount);
    return Ok(sim.splitCount);
  }

  /** One turn of the row loop of `first`: `empty` tells whether the row
      emptied the frontier, in which case the loop stops with `total`. */
  method BeamRow(sim: Simulation, r: nat, ghost total: Result<int>) returns (next: Simulation, empty: bool)
    requires RowsFrom(sim.cells, r) && r < |sim.cells| && |sim.cells[r]| == sim.w
    requires forall c :: c in sim.activeBeams ==> c < sim.w
    requires BeamRun(sim.cells, sim.w, r, sim.activeBeams, sim.splitCount) == total
    ensures next.cells == sim.cells && next.h == sim.h && next.w == sim.w
    ensures RowsFrom(sim.cells, r + 1) && forall c :: c in next.activeBeams ==> c < sim.w
    ensures empty <==> next.activeBeams == {}
    ensures empty ==> total == Ok(next.splitCount)
    ensures !empty ==> BeamRun(sim.cells, sim.w, r + 1, next.activeBeams, next.splitCount) == total
  {
    next := ResolveRowSplitters(sim, r);
    BeamRunStep(sim.cells, sim.w, r, sim.activeBeams, sim.splitCount, next.activeBeams, next.splitCount - sim.splitCount);
    empty := next.activeBeams == {};
  }

  /** A row of another width ends `BeamRun` with an error. */
  lemma BeamRunRagged(cells: Grid, w: nat, r: nat, active: set<nat>, splits: int)
    requires RowsFrom(cells, r) && (forall c :: c in active ==> c < w) && r < |cells| && |cells[r]| != w
    ensures BeamRun(cells, w, r, active, splits) == Err("row width differs from the first row")
  {
  }

  /** Past the last row `BeamRun` answers the splits so far. */
  lemma BeamRunEnd(cells: Grid, w: nat, r: nat, active: set<nat>, splits: int)
    requires RowsFrom(cells, r) && (forall c :: c in active ==> c < w) && r >= |cells|
    ensures BeamRun(cells, w, r, active, splits) == Ok(splits)
  {
  }

  /** `Day07::second`: parse, then saturate the rows below the source one
      by one until no timeline is left in the grid; the answer counts the
      timelines that left sideways and those that reached the bottom. */
  method Second(input: string) returns (res: Result<int>)
    requires Simulable(input)
    ensures res == SecondAnswer(input)
  {
    var parsed := Parse(input);
    if parsed.Err? {
      return Err(parsed.reason);
    }
    var sim := parsed.value;
    res := RunTimelines(sim, sim.startRow + 1);
  }

  /** The row loop of `second`, from row `from` on, with `finished` at 0. */
  method RunTimelines(sim0: Simulation, from: nat) returns (res: Result<int>)
    requires sim0.h == |sim0.cells| && RowsFrom(sim0.cells, from)
    requires |sim0.activeTimelines| == sim0.w && AllNonNegative(sim0.activeTimelines)
    ensures res == TimelineRun(sim0.cells, sim0.w, from, sim0.activeTimelines, 0)
  {
    ghost var total := TimelineRun(sim0.cells, sim0.w, from, sim0.activeTimelines, 0);
    var sim := sim0;
    var finished := 0;
    var r := from;
    while r < sim.h
      invariant sim.cells == sim0.cells && sim.h == sim0.h && sim.w == sim0.w
      invariant RowsFrom(sim.cells, r)
      invariant |sim.activeTimelines| == sim.w && AllNonNegative(sim.activeTimelines)
      invariant TimelineRun(sim.cells, sim.w, r, sim.activeTimelines, finished) == total
      decreases sim.h - r
    {
      if |sim.cells[r]| != sim.w {
        TimelineRunRagged(sim.cells, sim.w, r, sim.activeTimelines, finished);
        assert Err("row width differs from the first row") == total;
        return Err("row width differs from the first row");
      }
      var zero: bool;
      sim, finished, zero := TimelineRow(sim, r, finished, total);
      if zero {
        assert Ok(finished + Sum(sim.activeTimelines)) == total;
        return Ok(finished + Sum(sim.activeTimelines));
      }
      r := r + 1;
    }
    TimelineRunEnd(sim.cells, sim.w, r, sim.activeTimelines, finished);
    assert Ok(finished + Sum(sim.activeTimelines)) == total;
    return Ok(finished + Sum(sim.activeTimelines));
  }

  /** One turn of the row loop of `second`: `zero` tells whether the row
      left no timeline in the grid, in which case the loop stops with
      `total`. */
  method TimelineRow(sim: Simulation, r: nat, finished: int, ghost total: Result<int>)
    returns (next: Simulation, fin: int, zero: bool)
    requires RowsFrom(sim.cells, r) && r < |sim.cells| && |sim.cells[r]| == sim.w
    requires |sim.activeTimelines| == sim.w && AllNonNegative(sim.activeTimelines)
    requires TimelineRun(sim.cells, sim.w, r, sim.activeTimelines, finished) == total
    ensures next.cells == sim.cells && next.h == sim.h && next.w == sim.w
    ensures |next.activeTimelines| == sim.w && AllNonNegative(next.activeTimelines)
    ensures RowsFrom(sim.cells, r + 1)
    ensures zero <==> AllZero(next.activeTimelines)
    ensures zero ==> total == Ok(fin + Sum(next.activeTimelines))
    ensures !zero ==> TimelineRun(sim.cells, sim.w, r + 1, next.activeTimelines, fin) == total
  {
    next, fin := ResolveRowSplittersQuantum(sim, r, finished);
    TimelineRunStep(sim.cells, sim.w, r, sim.activeTimelines, finished, next.activeTimelines, fin);
    zero := AllZero(next.activeTimelines);
  }

  /** A row of another width ends `TimelineRun` with an error. */
  lemma TimelineRunRagged(cells: Grid, w: nat, r: nat, counts: seq<int>, finished: int)
    requires RowsFrom(cells, r) && |counts| == w && r < |cells| && |cells[r]| != w
    ensures TimelineRun(cells, w, r, counts, finished) == Err("row width differs from the first row")
  {
  }

  /** Past the last row `TimelineRun` counts the timelines left. */
  lemma TimelineRunEnd(cells: Grid, w: nat, r: nat, counts: seq<int>, finished: int)
    requires RowsFrom(cells, r) && |counts| == w && r >= |cells|
    ensures TimelineRun(cells, w, r, counts, finished) == Ok(finished + Sum(counts))
  {
  }

  /** One row of `TimelineRun`. */
  lemma TimelineRunStep(cells: Grid, w: nat, r: nat, counts: seq<int>, finished: int, next: seq<int>, fin: int)
    requires RowsFrom(cells, r) && r < |cells| && |cells[r]| == w && |counts| == w
    requires next == QuantumRow(cells[r], counts) && fin == finished + QuantumExits(cells[r], counts)
    ensures |next| == w && RowsFrom(cells, r + 1)
    ensures AllZero(next) ==> TimelineRun(cells, w, r, counts, finished) == Ok(fin + Sum(next))
    ensures !AllZero(next) ==> TimelineRun(cells, w, r, counts, finished) == TimelineRun(cells, w, r + 1, next, fin)
  {
    var zero := AllZero(next);
    var run := TimelineRun(cells, w, r, counts, finished);
    assert run == if zero then Ok(fin + Sum(next)) else TimelineRun(cells, w, r + 1, next, fin);
  }

  // ================================================================ run lemmas

  /** For non-negative counts, all-zero means no column holds a timeline. */
  lemma AllZeroIffNoSupport(counts: seq<int>)
    requires AllNonNegative(counts)
    ensures AllZero(counts) <==> Support(counts) == {}
  {
    if Support(counts) == {} {
      forall i | 0 <= i < |counts|
        ensures counts[i] == 0
      {
        assert i !in Support(counts);
      }
    } else {
      var c :| c in Support(counts);
      assert counts[c] != 0;
    }
  }

  /** One row seen by both modes: the columns holding timelines are the
      frontier, and the row adds at least as many timelines as splits. */
  lemma RowAgree(row: seq<char>, counts: seq<int>)
    requires |counts| == |row| && NoAdjacentSplitters(row) && AllNonNegative(counts)
    ensures var next := QuantumRow(row, counts);
      var step := PresenceRow(row, Support(counts));
      && Support(next) == step.0
      && AllNonNegative(next)
      && (AllZero(next) <==> step.0 == {})
      && QuantumExits(row, counts) + Sum(next) >= Sum(counts) + step.1
  {
    var next := QuantumRow(row, counts);
    SupportAfterRow(row, counts);
    QuantumRowFacts(row, counts);
    QuantumGrowth(row, counts);
    FiredMassAtLeast(row, counts, |row|);
    assert FiredBelow(row, counts, |row|) == Fired(row, counts);
    FiredAreHits(row, counts);
    AllZeroIffNoSupport(next);
  }

  /** One row of `BeamRun`. */
  lemma BeamRunStep(cells: Grid, w: nat, r: nat, active: set<nat>, splits: int, next: set<nat>, n: nat)
    requires RowsFrom(cells, r) && r < |cells| && |cells[r]| == w
    requires forall c :: c in active ==> c < w
    requires (next, n) == PresenceRow(cells[r], active)
    ensures forall c :: c in next ==> c < w
    ensures RowsFrom(cells, r + 1)
    ensures next == {} ==> BeamRun(cells, w, r, active, splits) == Ok(splits + n)
    ensures next != {} ==> BeamRun(cells, w, r, active, splits) == BeamRun(cells, w, r + 1, next, splits + n)
  {
  }

  /** The outcome of both modes from one row on: they succeed together,
      and the timelines still to be counted (`timelines - finished - mass`,
      with `mass` the timelines in the grid) are at least the splits still
      to come (`beams - splits`). */
  predicate Agree(beams: Result<int>, timelines: Result<int>, finished: int, mass: int, splits: int) {
    && (beams.Ok? <==> timelines.Ok?)
    && (beams.Ok? ==> timelines.value - finished - mass >= beams.value - splits)
  }

  /** The two modes walk the grid in step: they stop at the same row and
      fail on the same row, and every split adds at least one timeline, so
      the timeline total grows by at least the number of splits. */
  lemma RunsAgree(cells: Grid, w: nat, r: nat, counts: seq<int>, finished: int, splits: int)
    requires RowsFrom(cells, r) && |counts| == w && AllNonNegative(counts)
    ensures Agree(BeamRun(cells, w, r, Support(counts), splits),
                  TimelineRun(cells, w, r, counts, finished), finished, Sum(counts), splits)
  {
    AgreeFrom(cells, w, r, counts, finished, Support(counts), splits,
              BeamRun(cells, w, r, Support(counts), splits), TimelineRun(cells, w, r, counts, finished));
  }

  /** `beams` and `timelines` are the outcomes of both modes from row `r`
      on, the frontier being the columns that hold timelines. */
  predicate RunsFrom(cells: Grid, w: nat, r: nat, counts: seq<int>, finished: int,
                     active: set<nat>, splits: int, beams: Result<int>, timelines: Result<int>) {
    && RowsFrom(cells, r) && |counts| == w && AllNonNegative(counts)
    && active == Support(counts)
    && beams == BeamRun(cells, w, r, active, splits)
    && timelines == TimelineRun(cells, w, r, counts, finished)
  }

  /** `RunsAgree` with the two outcomes passed in as values, so that the
      induction hypothesis speaks of values only. */
  lemma {:induction false} AgreeFrom(cells: Grid, w: nat, r: nat, counts: seq<int>, finished: int,
                                     active: set<nat>, splits: int, beams: Result<int>, timelines: Result<int>)
    requires RunsFrom(cells, w, r, counts, finished, active, splits, beams, timelines)
    ensures Agree(beams, timelines, finished, Sum(counts), splits)
    decreases |cells| - r
  {
    if r >= |cells| || |cells[r]| != w {
      AgreeEdge(cells, w, r, counts, finished, active, splits, beams, timelines);
    } else {
      var next, fin, active', n := AgreeRow(cells, w, r, counts, finished, active, splits, beams, timelines);
      var mass, mass' := Sum(counts), Sum(next);
      if active' != {} {
        AgreeFrom(cells, w, r + 1, next, fin, active', splits + n, beams, timelines);
        AgreeChain(beams, timelines, finished, mass, splits, fin, mass', n);
      }
    }
  }

  /** Agreement from the next row on, after a row that added at least as
      many timelines as splits, is agreement from this row on. */
  lemma AgreeChain(beams: Result<int>, timelines: Result<int>, finished: int, mass: int, splits: int,
                   fin: int, mass': int, n: nat)
    requires Agree(beams, timelines, fin, mass', splits + n)
    requires fin + mass' - finished - mass >= n
    ensures Agree(beams, timelines, finished, mass, splits)
  {
  }

  /** Past the last row both runs stop with their totals; on a row of
      another width both fail. */
  lemma AgreeEdge(cells: Grid, w: nat, r: nat, counts: seq<int>, finished: int,
                  active: set<nat>, splits: int, beams: Result<int>, timelines: Result<int>)
    requires RunsFrom(cells, w, r, counts, finished, active, splits, beams, timelines)
    requires r >= |cells| || |cells[r]| != w
    ensures Agree(beams, timelines, finished, Sum(counts), splits)
  {
  }

  /** One row of `AgreeFrom`: the row either ends both runs, in agreement,
      or hands both on to the next row with the timelines ahead of the
      splits. */
  lemma AgreeRow(cells: Grid, w: nat, r: nat, counts: seq<int>, finished: int,
                 active: set<nat>, splits: int, beams: Result<int>, timelines: Result<int>)
    returns (next: seq<int>, fin: int, active': set<nat>, n: nat)
    requires RunsFrom(cells, w, r, counts, finished, active, splits, beams, timelines)
    requires r < |cells| && |cells[r]| == w
    ensures RowsFrom(cells, r + 1) && |next| == w && AllNonNegative(next) && active' == Support(next)
    ensures fin + Sum(next) - finished - Sum(counts) >= n
    ensures AllZero(next) <==> active' == {}
    ensures active' == {} ==> beams == Ok(splits + n)
    ensures active' != {} ==> beams == BeamRun(cells, w, r + 1, active', splits + n)
    ensures AllZero(next) ==> timelines == Ok(fin + Sum(next))
    ensures !AllZero(next) ==> timelines == TimelineRun(cells, w, r + 1, next, fin)
  {
    next := QuantumRow(cells[r], counts);
    fin := finished + QuantumExits(cells[r], counts);
    var step := PresenceRow(cells[r], active);
    active', n := step.0, step.1;
    RowAgree(cells[r], counts);
    TimelineRunStep(cells, w, r, counts, finished, next, fin);
    BeamRunStep(cells, w, r, active, splits, active', n);
  }

  /** A row without splitters leaves the frontier and the counts as they
      are. */
  lemma QuietRow(row: seq<char>, counts: seq<int>)
    requires '^' !in row && |counts| == |row|
    ensures PresenceRow(row, Support(counts)) == (Support(counts), 0)
    ensures QuantumRow(row, counts) == counts && QuantumExits(row, counts) == 0
  {
    assert Hits(row, Support(counts)) == {};
    assert Fired(row, counts) == {};
    NothingFired(counts);
    assert Spread({}, |row|) == {};
  }

  /** Below row `r` every row has the first row's width and no splitter. */
  predicate QuietBelow(cells: Grid, w: nat, r: nat) {
    forall r' :: r <= r' < |cells| ==> |cells[r']| == w && '^' !in cells[r']
  }

  /** On a grid with no splitter below row `r` nothing splits: the
      frontier passes through unchanged. */
  lemma {:induction false} NoSplitsBelow(cells: Grid, w: nat, r: nat, active: set<nat>, splits: int)
    requires RowsFrom(cells, r) && QuietBelow(cells, w, r)
    requires forall c :: c in active ==> c < w
    ensures BeamRun(cells, w, r, active, splits) == Ok(splits)
    decreases |cells| - r
  {
    if r < |cells| {
      var counts := seq(w, c => if c in active then 1 else 0);
      assert Support(counts) == active;
      QuietRow(cells[r], counts);
      BeamRunStep(cells, w, r, active, splits, active, 0);
      if active != {} {
        NoSplitsBelow(cells, w, r + 1, active, splits);
      }
    }
  }

  /** On a grid with no splitter below row `r` the timeline counts pass
      through unchanged and all of them reach the bottom. */
  lemma {:induction false} NoTimelineSplitsBelow(cells: Grid, w: nat, r: nat, counts: seq<int>, finished: int)
    requires RowsFrom(cells, r) && QuietBelow(cells, w, r) && |counts| == w
    ensures TimelineRun(cells, w, r, counts, finished) == Ok(finished + Sum(counts))
    decreases |cells| - r
  {
    if r < |cells| {
      QuietRow(cells[r], counts);
      TimelineRunStep(cells, w, r, counts, finished, counts, finished);
      if !AllZero(counts) {
        NoTimelineSplitsBelow(cells, w, r + 1, counts, finished);
      }
    }
  }

  // ================================================================ answers

  /** The state `Parse` builds: one beam, one timeline, both at the
      source's column. */
  lemma InitialAgrees(s: Simulation, c: nat)
    requires IsInitial(s, c)
    ensures Support(s.activeTimelines) == s.activeBeams
    ensures Sum(s.activeTimelines) == 1
    ensures AllNonNegative(s.activeTimelines)
  {
    SumSingle(s.activeTimelines, c, 1);
    assert c in Support(s.activeTimelines);
  }

  /** Both parts fail on the same inputs, and every split adds at least
      one timeline to the one the source starts: the second answer exceeds
      the first by at least one. */
  lemma SecondExceedsFirst(input: string)
    requires Simulable(input)
    ensures FirstAnswer(input).Ok? <==> SecondAnswer(input).Ok?
    ensures FirstAnswer(input).Ok? ==> SecondAnswer(input).value >= FirstAnswer(input).value + 1
  {
    var parsed := Parse(input);
    if parsed.Ok? {
      var sim := parsed.value;
      var c :| IsFirstStart(sim.cells, sim.startRow, c) && IsInitial(sim, c);
      InitialAgrees(sim, c);
      var beams := BeamRun(sim.cells, sim.w, sim.startRow + 1, sim.activeBeams, 0);
      var timelines := TimelineRun(sim.cells, sim.w, sim.startRow + 1, sim.activeTimelines, 0);
      AgreeFrom(sim.cells, sim.w, sim.startRow + 1, sim.activeTimelines, 0, sim.activeBeams, 0, beams, timelines);
      assert FirstAnswer(input) == beams;
      assert SecondAnswer(input) == timelines;
    }
  }

  /** On a grid without splitters below the source the beam never splits
      and the one timeline reaches the bottom. */
  lemma NoSplittersAnswers(input: string)
    requires Parse(input).Ok?
    requires QuietBelow(Parse(input).value.cells, Parse(input).value.w, Parse(input).value.startRow + 1)
    ensures Simulable(input)
    ensures FirstAnswer(input) == Ok(0) && SecondAnswer(input) == Ok(1)
  {
    var sim := Parse(input).value;
    var c :| IsFirstStart(sim.cells, sim.startRow, c) && IsInitial(sim, c);
    QuietRuns(sim, c);
  }

  /** From the state `Parse` builds, a grid with no splitter below the
      source runs to 0 splits and 1 timeline. */
  lemma QuietRuns(sim: Simulation, c: nat)
    requires IsInitial(sim, c) && QuietBelow(sim.cells, sim.w, sim.startRow + 1)
    ensures RowsFrom(sim.cells, sim.startRow + 1)
    ensures BeamRun(sim.cells, sim.w, sim.startRow + 1, sim.activeBeams, sim.splitCount) == Ok(0)
    ensures TimelineRun(sim.cells, sim.w, sim.startRow + 1, sim.activeTimelines, 0) == Ok(1)
  {
    InitialAgrees(sim, c);
    assert RowsFrom(sim.cells, sim.startRow + 1) by {
      forall r' | sim.startRow + 1 <= r' < |sim.cells|
        ensures NoAdjacentSplitters(sim.cells[r'])
      {
        assert '^' !in sim.cells[r'];
      }
    }
    NoSplitsBelow(sim.cells, sim.w, sim.startRow + 1, sim.activeBeams, 0);
    NoTimelineSplitsBelow(sim.cells, sim.w, sim.startRow + 1, sim.activeTimelines, 0);
  }
}

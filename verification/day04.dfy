/** The paper rolls of `day_04.rs`.

    The input is a grid in which '@' marks a roll of paper. A roll can be
    reached by a forklift when fewer than four of its eight neighbours hold
    rolls. The first part counts those rolls; the second removes reachable
    rolls again and again until none is left and counts all it removed. */
module Day04 {
  import opened Text
  import opened Point

  // ================================================================ the grid

  /** The rolls of one row: the point `(x, y)` for each '@' at byte `y >= from`
      of row `x`. */
  function RowRolls(x: nat, row: string, from: nat): (s: set<Point2D>)
    ensures forall p :: p in s <==> p.x == x && from <= p.y < |row| && row[p.y] == '@'
    decreases |row| - from
  {
    if from >= |row| then {}
    else (if row[from] == '@' then {Point2D(x, from)} else {}) + RowRolls(x, row, from + 1)
  }

  /** The rolls of the rows from `x` on. */
  function GridRolls(rows: seq<string>, x: nat): (s: set<Point2D>)
    ensures forall p :: p in s <==> x <= p.x < |rows| && 0 <= p.y < |rows[p.x]| && rows[p.x][p.y] == '@'
    decreases |rows| - x
  {
    if x >= |rows| then {} else RowRolls(x, rows[x], 0) + GridRolls(rows, x + 1)
  }

  /** `Paper::new`: the point (line index, byte index) of every '@'. */
  function Paper(input: string): (s: set<Point2D>)
    ensures forall p :: p in s <==>
      var rows := Lines(input); 0 <= p.x < |rows| && 0 <= p.y < |rows[p.x]| && rows[p.x][p.y] == '@'
  {
    GridRolls(Lines(input), 0)
  }

  // ================================================================ neighbours

  /** How many of the points `ns` are rolls (`filter(contains).count()`). */
  function CountIn(ns: seq<Point2D>, rolls: set<Point2D>): (n: nat)
    ensures n <= |ns|
  {
    if |ns| == 0 then 0 else (if ns[0] in rolls then 1 else 0) + CountIn(ns[1..], rolls)
  }

  /** The number of neighbours of `p` that hold rolls. */
  function NeighborCount(p: Point2D, rolls: set<Point2D>): nat {
    CountIn(Neighbors(p), rolls)
  }

  /** More rolls never means fewer present neighbours. */
  lemma {:induction false} CountInMonotone(ns: seq<Point2D>, a: set<Point2D>, b: set<Point2D>)
    requires a <= b
    ensures CountIn(ns, a) <= CountIn(ns, b)
  {
    if |ns| > 0 {
      CountInMonotone(ns[1..], a, b);
    }
  }

  /** A roll a forklift can reach. */
  predicate Reachable(p: Point2D, rolls: set<Point2D>) {
    NeighborCount(p, rolls) < 4
  }

  /** The rolls a forklift can reach. */
  function Accessible(rolls: set<Point2D>): (s: set<Point2D>)
    ensures forall p :: p in s <==> p in rolls && Reachable(p, rolls)
  {
    set p | p in rolls && Reachable(p, rolls)
  }

  /** One peeling step: the rolls with at least four present neighbours. */
  function Keep(rolls: set<Point2D>): (s: set<Point2D>)
    ensures forall p :: p in s <==> p in rolls && !Reachable(p, rolls)
  {
    set p | p in rolls && !Reachable(p, rolls)
  }

  /** A step keeps a subset, and together with the reachable rolls it makes
      up the whole set. */
  lemma KeepSplits(rolls: set<Point2D>)
    ensures Keep(rolls) <= rolls
    ensures Keep(rolls) !! Accessible(rolls)
    ensures |Keep(rolls)| + |Accessible(rolls)| == |rolls|
  {
    assert rolls == Keep(rolls) + Accessible(rolls);
  }

  /** Equal sizes mean the step removed nothing: the loop's size test
      detects the fixpoint. */
  lemma SameSizeFixpoint(rolls: set<Point2D>)
    ensures |Keep(rolls)| == |rolls| <==> Keep(rolls) == rolls
  {
    KeepSplits(rolls);
    if |Keep(rolls)| == |rolls| {
      assert |Accessible(rolls)| == 0;
      assert Accessible(rolls) == {};
    }
  }

  /** Every roll of `s` has at least four neighbours in `s`. */
  ghost predicate Stable(s: set<Point2D>) {
    forall p :: p in s ==> !Reachable(p, s)
  }

  /** A stable set inside `rolls` survives a step. */
  lemma StableSurvives(s: set<Point2D>, rolls: set<Point2D>)
    requires s <= rolls && Stable(s)
    ensures s <= Keep(rolls)
  {
    forall p | p in s
      ensures p in Keep(rolls)
    {
      CountInMonotone(Neighbors(p), s, rolls);
    }
  }

  // ================================================================ answers

  /** `Day04::first`. */
  function FirstAnswer(input: string): nat {
    |Accessible(Paper(input))|
  }

  /** The first answer is the number of rolls that a round removes. */
  lemma FirstAnswerRemoved(input: string)
    ensures FirstAnswer(input) == |Paper(input)| - |Keep(Paper(input))|
    ensures FirstAnswer(input) == |Paper(input) - Keep(Paper(input))|
  {
    KeepSplits(Paper(input));
    assert Paper(input) - Keep(Paper(input)) == Accessible(Paper(input));
  }

  /** The peeling loop of `Day04::second`: step until a step removes
      nothing. What is left is the largest stable set of rolls. */
  method Peel(paper: set<Point2D>) returns (core: set<Point2D>)
    ensures core <= paper && Stable(core)
    ensures forall s :: s <= paper && Stable(s) ==> s <= core
  {
    core := paper;
    while true
      invariant core <= paper
      invariant forall s :: s <= paper && Stable(s) ==> s <= core
      decreases |core|
    {
      var next := Keep(core);
      KeepSplits(core);
      if |next| == |core| {
        SameSizeFixpoint(core);
        assert Stable(core) by {
          forall p | p in core
            ensures !Reachable(p, core)
          {
            assert p in next;
          }
        }
        return;
      }
      forall s | s <= paper && Stable(s)
        ensures s <= next
      {
        StableSurvives(s, core);
      }
      core := next;
    }
  }

  /** `Day04::second`: the number of rolls peeled away. It is at least the
      first answer, since the first step alone removes the reachable rolls
      and the loop only ever removes more. */
  method SecondAnswer(input: string) returns (removed: nat)
    ensures removed >= FirstAnswer(input)
    ensures exists core ::
      && core <= Paper(input) && Stable(core) && removed == |Paper(input)| - |core|
      && (forall s :: s <= Paper(input) && Stable(s) ==> s <= core)
  {
    var paper := Paper(input);
    var core := Peel(paper);
    SubsetSize(core, paper);
    removed := |paper| - |core|;
    SubsetSize(core, Keep(paper)) by {
      StableSurvives(core, paper);
    }
    KeepSplits(paper);
  }

  lemma SubsetSize(a: set<Point2D>, b: set<Point2D>)
    requires a <= b
    ensures |a| <= |b|
  {
    assert b == a + (b - a);
  }
}

/** The safe dial of `day_01.rs`.

    A dial shows the numbers 0 to 99 and starts at 50. Each input line is a
    rotation: a direction letter ('L' towards lower numbers, 'R' towards
    higher ones) followed by a distance in clicks. The first answer counts
    the rotations that leave the dial at 0; the second counts every click,
    during any rotation, at which the dial passes or lands on 0. */
module Day01 {
  import opened Results
  import opened Text

  /** `LOCK_SIZE`: the dial's number of positions. */
  const LockSize: int := 100

  /** The position the dial starts at. */
  const StartPos: int := 50

  /** `Rotation`: the direction byte and the signed distance. */
  datatype Rotation = Rotation(dir: char, dist: int)

  predicate ValidDir(dir: char) {
    dir == 'L' || dir == 'R'
  }

  /** The direction of travel: -1 for 'L', +1 for 'R'. */
  function Step(dir: char): int
    requires ValidDir(dir)
  {
    if dir == 'R' then 1 else -1
  }

  // ================================================================ parsing

  /** The lines `parse_rotations` keeps: trimmed, and blank ones dropped. */
  function Entries(lines: seq<string>): (es: seq<string>)
    ensures forall i :: 0 <= i < |es| ==> |es[i]| > 0
    ensures |es| <= |lines|
  {
    if |lines| == 0 then []
    else
      var t := Trim(lines[0]);
      if |t| == 0 then Entries(lines[1..]) else [t] + Entries(lines[1..])
  }

  /** A text is an entry exactly when it is the non-blank trim of a line. */
  lemma {:induction false} EntriesMembers(lines: seq<string>, t: string)
    ensures t in Entries(lines) <==> |t| > 0 && exists i :: 0 <= i < |lines| && Trim(lines[i]) == t
  {
    if |lines| > 0 {
      var tail := lines[1..];
      EntriesMembers(tail, t);
      var h := Trim(lines[0]);
      assert Entries(lines) == if |h| == 0 then Entries(tail) else [h] + Entries(tail);
      if exists i :: 1 <= i < |lines| && Trim(lines[i]) == t {
        var i :| 1 <= i < |lines| && Trim(lines[i]) == t;
        assert tail[i - 1] == lines[i];
      }
      if exists i :: 0 <= i < |tail| && Trim(tail[i]) == t {
        var i :| 0 <= i < |tail| && Trim(tail[i]) == t;
        assert lines[i + 1] == tail[i];
      }
    }
  }

  /** The entries of two blocks of lines are those of the first block
      followed by those of the second: the order of the lines is kept. */
  lemma {:induction false} EntriesConcat(a: seq<string>, b: seq<string>)
    ensures Entries(a + b) == Entries(a) + Entries(b)
  {
    if |a| > 0 {
      assert (a + b)[1..] == a[1..] + b;
      EntriesConcat(a[1..], b);
    } else {
      assert a + b == b;
    }
  }

  /** One line: `split_at(1)`, the first character being the direction and
      the rest a decimal distance (`parse().unwrap()`). */
  function ParseRotation(line: string): (res: Result<Rotation>)
    requires |line| > 0
  {
    match ParseInt(line[1..])
    case Some(n) => Ok(Rotation(line[0], n))
    case None => Err("called `Result::unwrap()` on an `Err` value")
  }

  function ParseAll(es: seq<string>): (res: Result<seq<Rotation>>)
    requires forall i :: 0 <= i < |es| ==> |es[i]| > 0
    ensures res.Ok? ==> |res.value| == |es|
  {
    if |es| == 0 then Ok([])
    else
      var r :- ParseRotation(es[0]);
      var rest :- ParseAll(es[1..]);
      Ok([r] + rest)
  }

  /** `parse_rotations`. */
  function ParseRotations(input: string): Result<seq<Rotation>> {
    ParseAll(Entries(Lines(input)))
  }

  /** The text of one rotation, as the puzzle writes it. */
  function RotationText(r: Rotation): string {
    [r.dir] + IntToString(r.dist)
  }

  /** The puzzle text of a list of rotations, one per line. */
  function RotationsText(rs: seq<Rotation>): string {
    JoinLines(seq(|rs|, i requires 0 <= i < |rs| => RotationText(rs[i])))
  }

  /** Parsing reads back what `RotationsText` writes, for any rotations
      whose direction is not a line break or other whitespace. */
  lemma ParseRotationsText(rs: seq<Rotation>)
    requires forall i :: 0 <= i < |rs| ==> !IsWhitespace(rs[i].dir)
    ensures ParseRotations(RotationsText(rs)) == Ok(rs)
  {
    var ls := seq(|rs|, i requires 0 <= i < |rs| => RotationText(rs[i]));
    forall i | 0 <= i < |ls|
      ensures '\n' !in ls[i] && |ls[i]| > 0 && ls[i][|ls[i]| - 1] != '\r'
      ensures Trim(ls[i]) == ls[i]
    {
      RotationTextShape(rs[i]);
    }
    LinesOfJoinLines(ls);
    ParseEntries(rs, ls);
  }

  /** The text of a rotation is a non-empty line with no surrounding
      whitespace that ends in a digit. */
  lemma RotationTextShape(r: Rotation)
    requires !IsWhitespace(r.dir)
    ensures var t := RotationText(r);
      && '\n' !in t && |t| > 1 && IsDigit(t[|t| - 1]) && Trim(t) == t
      && t[1..] == IntToString(r.dist)
  {
    var t := RotationText(r);
    var d := IntToString(r.dist);
    assert t[1..] == d;
    IntToStringShape(r.dist);
    assert t[|t| - 1] == d[|d| - 1];
    assert forall i :: 1 <= i < |t| ==> t[i] == d[i - 1];
    assert TrimStart(t) == t;
    assert TrimEnd(t) == t;
  }

  /** A decimal numeral holds digits and possibly a leading '-', and ends in
      a digit. */
  lemma IntToStringShape(n: int)
    ensures var s := IntToString(n);
      && IsDigit(s[|s| - 1])
      && forall i :: 0 <= i < |s| ==> IsDigit(s[i]) || s[i] == '-'
  {
    if n < 0 {
      var s := IntToString(n);
      assert s == "-" + NatToString(-n);
    }
  }

  lemma {:induction false} ParseEntries(rs: seq<Rotation>, ls: seq<string>)
    requires |ls| == |rs|
    requires forall i :: 0 <= i < |rs| ==> !IsWhitespace(rs[i].dir) && ls[i] == RotationText(rs[i])
    requires forall i :: 0 <= i < |ls| ==> Trim(ls[i]) == ls[i]
    ensures Entries(ls) == ls
    ensures ParseAll(ls) == Ok(rs)
  {
    if |rs| > 0 {
      RotationTextShape(rs[0]);
      ParseIntToString(rs[0].dist);
      ParseEntries(rs[1..], ls[1..]);
      assert ls == [ls[0]] + ls[1..];
      assert rs == [rs[0]] + rs[1..];
    }
  }

  // ================================================================ turning

  /** The dial position after one rotation (`rem_euclid(LOCK_SIZE)`); any
      other direction byte reaches `unreachable!()`. */
  function Turn(pos: int, r: Rotation): (p: Result<int>)
    ensures p.Ok? <==> ValidDir(r.dir)
    ensures p.Ok? ==> 0 <= p.value < LockSize
    ensures p.Ok? ==> (pos + Step(r.dir) * r.dist - p.value) % LockSize == 0
  {
    match r.dir
    case 'L' => Ok((pos - r.dist) % LockSize)
    case 'R' => Ok((pos + r.dist) % LockSize)
    case _ => Err("internal error: entered unreachable code")
  }

  /** The `scan` of `first`: the position after each rotation, from `pos`. */
  function Positions(pos: int, rs: seq<Rotation>): (res: Result<seq<int>>)
    ensures res.Ok? <==> forall i :: 0 <= i < |rs| ==> ValidDir(rs[i].dir)
    ensures res.Ok? ==> |res.value| == |rs|
    ensures res.Ok? ==> forall i :: 0 <= i < |rs| ==> 0 <= res.value[i] < LockSize
    decreases |rs|
  {
    if |rs| == 0 then Ok([])
    else
      var p :- Turn(pos, rs[0]);
      var rest :- Positions(p, rs[1..]);
      Ok([p] + rest)
  }

  /** The number of zeros in `ps` (the count of positions equal to 0). */
  function CountZeros(ps: seq<int>): nat {
    if |ps| == 0 then 0 else (if ps[0] == 0 then 1 else 0) + CountZeros(ps[1..])
  }

  /** The number of rotations of `rs`, started at `pos`, that end at 0. */
  function LandingsFrom(pos: int, rs: seq<Rotation>): (res: Result<nat>)
    ensures res.Ok? <==> forall i :: 0 <= i < |rs| ==> ValidDir(rs[i].dir)
  {
    var ps :- Positions(pos, rs);
    Ok(CountZeros(ps))
  }

  /** `Day01::first`. */
  function FirstAnswer(input: string): Result<nat> {
    var rs :- ParseRotations(input);
    LandingsFrom(StartPos, rs)
  }

  // ================================================================ passing zero

  /** The clicks `j` in `1..=k` of a rotation in direction `step` from `pos`
      at which the dial shows 0: the reference count. */
  function Crossings(pos: int, step: int, k: int): nat
    decreases k
  {
    if k <= 0 then 0
    else Crossings(pos, step, k - 1) + (if (pos + step * k) % LockSize == 0 then 1 else 0)
  }

  /** `hits_zero_during_rotation`: the distance to the first 0 in the
      direction of travel (a whole turn when already at 0), then one more
      0 per further whole turn. A distance of at most 0 hits nothing; a
      positive distance with any other direction byte is unreachable. */
  function HitsZero(pos: int, r: Rotation): Result<int> {
    if r.dist <= 0 then Ok(0)
    else if !ValidDir(r.dir) then Err("internal error: entered unreachable code")
    else
      var target := if r.dir == 'R' then (-pos) % LockSize else pos % LockSize;
      var first := if target == 0 then LockSize else target;
      if r.dist < first then Ok(0) else Ok(1 + (r.dist - first) / LockSize)
  }

  /** The closed form counts the zero clicks exactly. */
  lemma HitsZeroCounts(pos: int, r: Rotation)
    requires ValidDir(r.dir) || r.dist <= 0
    ensures HitsZero(pos, r).Ok?
    ensures ValidDir(r.dir) ==> HitsZero(pos, r).value == Crossings(pos, Step(r.dir), r.dist)
    ensures r.dist <= 0 ==> HitsZero(pos, r).value == 0
  {
    if r.dist > 0 {
      var step := Step(r.dir);
      var target := if r.dir == 'R' then (-pos) % LockSize else pos % LockSize;
      var first := if target == 0 then LockSize else target;
      assert (pos + step * first) % LockSize == 0 by {
        FirstZero(pos, step, target, first);
      }
      CrossingsFormula(pos, step, first, r.dist);
    }
  }

  lemma FirstZero(pos: int, step: int, target: int, first: int)
    requires step == 1 || step == -1
    requires target == (if step == 1 then (-pos) % LockSize else pos % LockSize)
    requires first == (if target == 0 then LockSize else target)
    ensures 1 <= first <= LockSize
    ensures (pos + step * first) % LockSize == 0
  {
    if step == 1 {
      assert pos + first == (pos + target) + (first - target);
    } else {
      assert pos - first == (pos - target) - (first - target);
    }
  }

  /** A click `k` shows 0 exactly when it is a whole number of turns past
      the first zero click `first`. */
  lemma ZeroClick(pos: int, step: int, first: int, k: int)
    requires step == 1 || step == -1
    requires (pos + step * first) % LockSize == 0
    ensures (pos + step * k) % LockSize == 0 <==> (k - first) % LockSize == 0
  {
    var a := pos + step * first;
    var d := k - first;
    assert pos + step * k == a + step * d;
    assert a == LockSize * (a / LockSize);
    ShiftMod(a / LockSize, step * d);
    if step == -1 {
      NegMod(d);
    }
  }

  lemma ShiftMod(m: int, x: int)
    ensures (LockSize * m + x) % LockSize == x % LockSize
  {
  }

  lemma NegMod(d: int)
    ensures (-d) % LockSize == 0 <==> d % LockSize == 0
  {
    if d % LockSize == 0 {
      assert -d == LockSize * (-(d / LockSize));
    }
    if (-d) % LockSize == 0 {
      assert d == LockSize * (-((-d) / LockSize));
    }
  }

  lemma {:induction false} CrossingsFormula(pos: int, step: int, first: int, k: int)
    requires step == 1 || step == -1
    requires 1 <= first <= LockSize && (pos + step * first) % LockSize == 0
    ensures Crossings(pos, step, k) == (if k < first then 0 else 1 + (k - first) / LockSize)
    decreases k
  {
    if k > 0 {
      CrossingsFormula(pos, step, first, k - 1);
      ZeroClick(pos, step, first, k);
      if k > first {
        QuotientStep(k - first);
      }
    }
  }

  /** Raising `q` by one raises `q / 100` exactly when it reaches a multiple
      of 100. */
  lemma QuotientStep(q: int)
    requires q > 0
    ensures q / LockSize - (q - 1) / LockSize == (if q % LockSize == 0 then 1 else 0)
  {
    var d := q / LockSize;
    var m := q % LockSize;
    assert q == LockSize * d + m;
    if m == 0 {
      assert q - 1 == LockSize * (d - 1) + (LockSize - 1);
    } else {
      assert q - 1 == LockSize * d + (m - 1);
    }
  }

  /** The `fold` of `second`: the hits of each rotation added up, the
      position carried along. */
  function HitsFrom(pos: int, rs: seq<Rotation>): (res: Result<int>)
    ensures res.Ok? <==> forall i :: 0 <= i < |rs| ==> ValidDir(rs[i].dir)
    decreases |rs|
  {
    if |rs| == 0 then Ok(0)
    else
      var hits :- HitsZero(pos, rs[0]);
      var p :- Turn(pos, rs[0]);
      var rest :- HitsFrom(p, rs[1..]);
      Ok(hits + rest)
  }

  /** `Day01::second`. */
  function SecondAnswer(input: string): Result<int> {
    var rs :- ParseRotations(input);
    HitsFrom(StartPos, rs)
  }

  // ================================================================ properties

  /** With every distance positive, each rotation that ends at 0 clicks
      through 0 at its last click, so the second count is at least the
      first. */
  lemma {:induction false} HitsCoverLandings(pos: int, rs: seq<Rotation>)
    requires forall i :: 0 <= i < |rs| ==> ValidDir(rs[i].dir) && rs[i].dist > 0
    ensures HitsFrom(pos, rs).Ok? && LandingsFrom(pos, rs).Ok?
    ensures HitsFrom(pos, rs).value >= LandingsFrom(pos, rs).value
    decreases |rs|
  {
    if |rs| > 0 {
      var r := rs[0];
      var p := Turn(pos, r).value;
      HitsZeroCounts(pos, r);
      if p == 0 {
        assert (pos + Step(r.dir) * r.dist) % LockSize == 0;
      }
      HitsCoverLandings(p, rs[1..]);
      assert Positions(pos, rs).value == [p] + Positions(p, rs[1..]).value;
    }
  }

  /** Both answers fail on the same inputs, and when no distance is zero or
      negative the second answer is at least the first. */
  lemma SecondAtLeastFirst(input: string)
    requires ParseRotations(input).Ok? ==> forall r :: r in ParseRotations(input).value ==> r.dist > 0
    ensures FirstAnswer(input).Ok? <==> SecondAnswer(input).Ok?
    ensures FirstAnswer(input).Ok? ==> SecondAnswer(input).value >= FirstAnswer(input).value
  {
    var parsed := ParseRotations(input);
    if parsed.Ok? {
      var rs := parsed.value;
      if forall i :: 0 <= i < |rs| ==> ValidDir(rs[i].dir) {
        HitsCoverLandings(StartPos, rs);
      }
    }
  }

  /** Without positive distances the order fails: "L50" then "R0" lands on
      0 twice but clicks through 0 once. */
  lemma ZeroDistanceCounts()
    ensures LandingsFrom(StartPos, [Rotation('L', 50), Rotation('R', 0)]) == Ok(2)
    ensures HitsFrom(StartPos, [Rotation('L', 50), Rotation('R', 0)]) == Ok(1)
  {
    var rs := [Rotation('L', 50), Rotation('R', 0)];
    assert rs[1..] == [Rotation('R', 0)] && rs[1..][1..] == [];
    assert Turn(StartPos, rs[0]) == Ok(0) && Turn(0, rs[1]) == Ok(0);
    assert Positions(0, []) == Ok([]);
    assert Turn(0, Rotation('R', 0)) == Ok(0);
    assert Positions(0, [Rotation('R', 0)]).Ok?;
    assert Positions(0, [Rotation('R', 0)]).value == [0];
    assert Positions(0, rs[1..]) == Ok([0] + []);
    assert Positions(StartPos, rs) == Ok([0] + [0]);
  }
}

/** The fresh ingredient ranges of `day_05.rs`.

    The input holds inclusive ID ranges, a blank line, and then available
    IDs. The ranges are sorted and merged; the first part counts the
    available IDs some range covers, the second counts all covered IDs. */
module Day05 {
  import opened Results
  import opened Text

  /** `Range`: the inclusive bounds of an ID range. */
  datatype Range = Range(from: nat, to: nat)

  const Underflow := "attempt to subtract with overflow"
  const Unwrapped := "called `Result::unwrap()` on an `Err` value"
  const NoneUnwrapped := "called `Option::unwrap()` on a `None` value"

  /** `x` lies in `r`. */
  predicate In(r: Range, x: int) {
    r.from <= x <= r.to
  }

  /** Some range of `rs` holds `x`. */
  predicate Covers(rs: seq<Range>, x: int) {
    exists k :: 0 <= k < |rs| && In(rs[k], x)
  }

  /** The IDs from `a` to `b`, both included. */
  function Span(a: int, b: int): (s: set<int>)
    ensures forall x :: x in s <==> a <= x <= b
    ensures a <= b + 1 ==> |s| == b - a + 1
    decreases b - a
  {
    if a > b then {} else {a} + Span(a + 1, b)
  }

  /** The IDs a range holds. */
  function Interval(r: Range): (s: set<int>)
    ensures forall x :: x in s <==> In(r, x)
  {
    Span(r.from, r.to)
  }

  /** The IDs the ranges hold. */
  function CoveredSet(rs: seq<Range>): (s: set<int>)
    ensures forall x :: x in s <==> Covers(rs, x)
  {
    if |rs| == 0 then {}
    else
      var s := Interval(rs[0]) + CoveredSet(rs[1..]);
      assert forall x :: Covers(rs, x) <==> In(rs[0], x) || Covers(rs[1..], x) by {
        forall x
          ensures Covers(rs, x) <==> In(rs[0], x) || Covers(rs[1..], x)
        {
          if Covers(rs[1..], x) {
            var k :| 0 <= k < |rs| - 1 && In(rs[1..][k], x);
            assert In(rs[k + 1], x);
          }
          if Covers(rs, x) && !In(rs[0], x) {
            var k :| 0 <= k < |rs| && In(rs[k], x);
            assert In(rs[1..][k - 1], x);
          }
        }
      }
      s
  }

  // ================================================================ counting

  /** `Range::count`: the number of IDs in the range; `to - from` is
      unsigned, so an inverted range makes it underflow. */
  function RangeCount(r: Range): (res: Result<nat>)
    ensures res.Ok? <==> r.from <= r.to
    ensures res.Ok? ==> res.value == |Interval(r)|
  {
    if r.to < r.from then Err(Underflow) else Ok(r.to - r.from + 1)
  }

  /** `Ranges::count`: the sum of the range counts. */
  function Count(rs: seq<Range>): (res: Result<nat>)
    ensures res.Ok? <==> forall k :: 0 <= k < |rs| ==> rs[k].from <= rs[k].to
  {
    if |rs| == 0 then Ok(0)
    else
      var n :- RangeCount(rs[0]);
      var rest :- Count(rs[1..]);
      Ok(n + rest)
  }

  // ================================================================ sorting

  /** Sorted by `from`. */
  predicate SortedByFrom(rs: seq<Range>) {
    forall j, k :: 0 <= j < k < |rs| ==> rs[j].from <= rs[k].from
  }

  /** Puts `r` into the sorted `s` after every range whose `from` is not
      larger. */
  function Insert(s: seq<Range>, r: Range): (t: seq<Range>)
    requires SortedByFrom(s)
    ensures SortedByFrom(t)
    ensures multiset(t) == multiset(s) + multiset{r}
  {
    if |s| == 0 then [r]
    else if r.from < s[0].from then [r] + s
    else
      var rest := Insert(s[1..], r);
      InsertHead(s, r, rest);
      [s[0]] + rest
  }

  lemma InsertHead(s: seq<Range>, r: Range, rest: seq<Range>)
    requires |s| > 0 && SortedByFrom(s) && s[0].from <= r.from
    requires SortedByFrom(rest) && multiset(rest) == multiset(s[1..]) + multiset{r}
    ensures SortedByFrom([s[0]] + rest)
    ensures multiset([s[0]] + rest) == multiset(s) + multiset{r}
  {
    assert s == [s[0]] + s[1..];
    forall k | 0 <= k < |rest|
      ensures s[0].from <= rest[k].from
    {
      assert rest[k] in multiset(rest);
      if rest[k] != r {
        assert rest[k] in multiset(s[1..]);
        var m :| 0 <= m < |s[1..]| && s[1..][m] == rest[k];
        assert s[m + 1] == rest[k];
      }
    }
  }

  /** `sort_by_key` on `from`: a stable sort by `from`, as insertion
      into the sorted prefix. */
  function SortByFrom(rs: seq<Range>): (t: seq<Range>)
    ensures SortedByFrom(t)
    ensures multiset(t) == multiset(rs)
  {
    if |rs| == 0 then []
    else
      assert rs == rs[..|rs| - 1] + [rs[|rs| - 1]];
      Insert(SortByFrom(rs[..|rs| - 1]), rs[|rs| - 1])
  }

  /** Sorting leaves an already sorted list alone. */
  lemma {:induction false} SortSorted(rs: seq<Range>)
    requires SortedByFrom(rs)
    ensures SortByFrom(rs) == rs
  {
    if |rs| > 0 {
      var init := rs[..|rs| - 1];
      SortSorted(init);
      InsertLast(init, rs[|rs| - 1]);
      assert init + [rs[|rs| - 1]] == rs;
    }
  }

  lemma {:induction false} InsertLast(s: seq<Range>, r: Range)
    requires SortedByFrom(s)
    requires forall k :: 0 <= k < |s| ==> s[k].from <= r.from
    ensures Insert(s, r) == s + [r]
  {
    if |s| > 0 {
      InsertLast(s[1..], r);
      assert [s[0]] + (s[1..] + [r]) == s + [r];
    }
  }

  /** Rearranging the ranges changes nothing they cover. */
  lemma SameCover(a: seq<Range>, b: seq<Range>)
    requires multiset(a) == multiset(b)
    ensures forall x :: Covers(a, x) <==> Covers(b, x)
  {
    forall x | Covers(a, x)
      ensures Covers(b, x)
    {
      var k :| 0 <= k < |a| && In(a[k], x);
      assert a[k] in multiset(b);
      var m :| 0 <= m < |b| && b[m] == a[k];
    }
    forall x | Covers(b, x)
      ensures Covers(a, x)
    {
      var k :| 0 <= k < |b| && In(b[k], x);
      assert b[k] in multiset(a);
      var m :| 0 <= m < |a| && a[m] == b[k];
    }
  }

  // ================================================================ merging

  /** Sorted by `from`, and each range starts more than one past the end of
      the one before, so no two ranges touch. */
  predicate Separated(rs: seq<Range>) {
    && SortedByFrom(rs)
    && forall k :: 0 <= k < |rs| - 1 ==> rs[k + 1].from > rs[k].to + 1
  }

  /** One turn of the merge loop: extend the last range when `r` starts at
      most one past its end, otherwise push `r`. */
  function MergeStep(merged: seq<Range>, r: Range): seq<Range> {
    if |merged| > 0 && r.from <= merged[|merged| - 1].to + 1 then
      var last := merged[|merged| - 1];
      merged[..|merged| - 1] + [Range(last.from, if last.to >= r.to then last.to else r.to)]
    else
      merged + [r]
  }

  /** The merge loop over `rs`, continuing from `merged`. */
  function MergeAll(merged: seq<Range>, rs: seq<Range>): seq<Range>
    decreases |rs|
  {
    if |rs| == 0 then merged else MergeAll(MergeStep(merged, rs[0]), rs[1..])
  }

  /** `Ranges::merged`. */
  function Merged(rs: seq<Range>): seq<Range> {
    MergeAll([], SortByFrom(rs))
  }

  /** The merge loop keeps its output separated, and every range it has
      built starts no later than the ranges still to come. */
  predicate MergeReady(merged: seq<Range>, rs: seq<Range>) {
    && Separated(merged)
    && SortedByFrom(rs)
    && forall j, k :: 0 <= j < |merged| && 0 <= k < |rs| ==> merged[j].from <= rs[k].from
  }

  lemma MergeStepKeeps(merged: seq<Range>, rs: seq<Range>)
    requires |rs| > 0 && MergeReady(merged, rs)
    ensures MergeReady(MergeStep(merged, rs[0]), rs[1..])
    ensures forall x :: Covers(MergeStep(merged, rs[0]), x) <==> Covers(merged, x) || In(rs[0], x)
  {
    var r := rs[0];
    var next := MergeStep(merged, r);
    if |merged| > 0 && r.from <= merged[|merged| - 1].to + 1 {
      var init := merged[..|merged| - 1];
      var last := merged[|merged| - 1];
      var last' := Range(last.from, if last.to >= r.to then last.to else r.to);
      assert next == init + [last'];
      forall x
        ensures Covers(next, x) <==> Covers(merged, x) || In(r, x)
      {
        assert In(last', x) <==> In(last, x) || In(r, x);
        CoversSnoc(init, last, x);
        CoversSnoc(init, last', x);
        assert merged == init + [last];
      }
    } else {
      forall x
        ensures Covers(next, x) <==> Covers(merged, x) || In(r, x)
      {
        CoversSnoc(merged, r, x);
      }
    }
  }

  lemma CoversSnoc(s: seq<Range>, r: Range, x: int)
    ensures Covers(s + [r], x) <==> Covers(s, x) || In(r, x)
  {
    if Covers(s, x) {
      var k :| 0 <= k < |s| && In(s[k], x);
      assert (s + [r])[k] == s[k];
    }
    if In(r, x) {
      assert (s + [r])[|s|] == r;
    }
  }

  lemma {:induction false} MergeAllKeeps(merged: seq<Range>, rs: seq<Range>)
    requires MergeReady(merged, rs)
    ensures Separated(MergeAll(merged, rs))
    ensures forall x :: Covers(MergeAll(merged, rs), x) <==> Covers(merged, x) || Covers(rs, x)
    decreases |rs|
  {
    if |rs| > 0 {
      MergeStepKeeps(merged, rs);
      MergeAllKeeps(MergeStep(merged, rs[0]), rs[1..]);
      forall x
        ensures Covers(rs, x) <==> In(rs[0], x) || Covers(rs[1..], x)
      {
        CoversCons(rs, x);
      }
    }
  }

  lemma CoversCons(rs: seq<Range>, x: int)
    requires |rs| > 0
    ensures Covers(rs, x) <==> In(rs[0], x) || Covers(rs[1..], x)
  {
    assert x in CoveredSet(rs) <==> x in Interval(rs[0]) || x in CoveredSet(rs[1..]);
  }

  /** The merged ranges are separated and cover exactly what the input
      ranges cover. */
  lemma MergedShape(rs: seq<Range>)
    ensures Separated(Merged(rs))
    ensures forall x :: Covers(Merged(rs), x) <==> Covers(rs, x)
  {
    var sorted := SortByFrom(rs);
    MergeAllKeeps([], sorted);
    SameCover(sorted, rs);
  }

  /** The merge loop pushes every range of a separated list unchanged. */
  lemma {:induction false} MergeAllSeparated(merged: seq<Range>, rs: seq<Range>)
    requires Separated(merged + rs)
    ensures MergeAll(merged, rs) == merged + rs
    decreases |rs|
  {
    if |rs| > 0 {
      var whole := merged + rs;
      if |merged| > 0 {
        assert whole[|merged| - 1] == merged[|merged| - 1] && whole[|merged|] == rs[0];
      }
      assert MergeStep(merged, rs[0]) == merged + [rs[0]];
      assert (merged + [rs[0]]) + rs[1..] == whole;
      MergeAllSeparated(merged + [rs[0]], rs[1..]);
    }
  }

  /** Merging twice is merging once. */
  lemma MergedIdempotent(rs: seq<Range>)
    ensures Merged(Merged(rs)) == Merged(rs)
  {
    var m := Merged(rs);
    MergedShape(rs);
    SortSorted(m);
    MergeAllSeparated([], m);
    assert [] + m == m;
  }

  /** `SortByFrom` is stable: two ranges with the same `from` keep their
      input order, as `sort_by_key` keeps them. */
  lemma SortPairStable(a: Range, b: Range)
    requires a.from == b.from
    ensures SortByFrom([a, b]) == [a, b]
  {
    assert [a, b][..1] == [a];
    assert [a][..0] == [];
  }

  /** The merge loop over two ranges is two steps. */
  lemma MergeAllTwo(x: Range, y: Range)
    ensures MergeAll([], [x, y]) == MergeStep(MergeStep([], x), y)
  {
    var m := MergeStep([], x);
    assert MergeAll([], [x, y]) == MergeAll(m, [y]) by {
      assert [x, y][1..] == [y];
    }
    assert MergeAll(m, [y]) == MergeAll(MergeStep(m, y), []) by {
      assert [y][1..] == [];
    }
  }

  /** Two ranges with one `from`, the first ending before it: the merge
      keeps both. */
  lemma MergedPairApart(a: Range, b: Range)
    requires a.from == b.from && a.to + 1 < a.from
    ensures Merged([a, b]) == [a, b]
  {
    SortPairStable(a, b);
    MergeAllTwo(a, b);
    assert MergeStep([], a) == [a];
  }

  /** Two ranges with one `from`, the first well formed and the second
      ending no later than it: the merge absorbs the second. */
  lemma MergedPairAbsorbs(a: Range, b: Range)
    requires a.from == b.from && a.from <= a.to && b.to <= a.to
    ensures Merged([a, b]) == [a]
  {
    SortPairStable(a, b);
    MergeAllTwo(a, b);
    assert MergeStep([], a) == [a];
    assert [a][..0] == [];
  }

  /** The merged list depends on the input order of ranges with one `from`
      only when one of them is inverted: `5-3` before `5-10` stays apart and
      underflows in `count`, while `5-10` before `5-3` absorbs it and counts
      six IDs. */
  lemma InvertedOrderMatters(inverted: Range, wide: Range)
    requires inverted.from == 5 && inverted.to == 3
    requires wide.from == 5 && wide.to == 10
    ensures Merged([inverted, wide]) == [inverted, wide]
    ensures Count(Merged([inverted, wide])).Err?
    ensures Merged([wide, inverted]) == [wide]
    ensures Count(Merged([wide, inverted])) == Ok(6)
  {
    MergedPairApart(inverted, wide);
    MergedPairAbsorbs(wide, inverted);
    assert [wide][1..] == [];
  }

  /** On separated ranges the counts add up to the number of covered IDs,
      since no ID lies in two ranges. */
  lemma {:induction false} CountCovered(rs: seq<Range>)
    requires Separated(rs)
    requires Count(rs).Ok?
    ensures Count(rs).value == |CoveredSet(rs)|
  {
    if |rs| > 0 {
      var rest := rs[1..];
      HeadApart(rs);
      CountCovered(rest);
      DisjointUnionSize(Interval(rs[0]), CoveredSet(rest));
    }
  }

  /** In separated ranges the first range shares no ID with the others,
      which are separated too. */
  lemma HeadApart(rs: seq<Range>)
    requires Separated(rs) && |rs| > 0
    ensures Separated(rs[1..])
    ensures Interval(rs[0]) !! CoveredSet(rs[1..])
  {
    var rest := rs[1..];
    forall x | x in CoveredSet(rest)
      ensures x > rs[0].to
    {
      var k :| 0 <= k < |rest| && In(rest[k], x);
      assert rest[k].from >= rs[1].from;
    }
  }

  lemma DisjointUnionSize(a: set<int>, b: set<int>)
    requires a !! b
    ensures |a + b| == |a| + |b|
  {
  }

  // ================================================================ lookup

  /** `partition_point` with the test `from <= x`, by binary search: on ranges sorted
      by `from` it is the number of ranges that start at or before `x`. */
  method PartitionPoint(rs: seq<Range>, x: nat) returns (idx: nat)
    ensures idx <= |rs|
    ensures SortedByFrom(rs) ==> forall k :: 0 <= k < |rs| ==> (rs[k].from <= x <==> k < idx)
  {
    var lo, hi := 0, |rs|;
    while lo < hi
      invariant 0 <= lo <= hi <= |rs|
      invariant SortedByFrom(rs) ==> forall k :: 0 <= k < lo ==> rs[k].from <= x
      invariant SortedByFrom(rs) ==> forall k :: hi <= k < |rs| ==> rs[k].from > x
    {
      var mid := lo + (hi - lo) / 2;
      if rs[mid].from <= x {
        lo := mid + 1;
      } else {
        hi := mid;
      }
    }
    idx := lo;
  }

  /** `Ranges::contains`: look at the last range that starts at or before
      `x`. On separated ranges this finds `x` exactly when some range
      holds it. */
  method Contains(rs: seq<Range>, x: nat) returns (b: bool)
    ensures b ==> Covers(rs, x)
    ensures Separated(rs) ==> (b <==> Covers(rs, x))
  {
    var idx := PartitionPoint(rs, x);
    if idx == 0 {
      return false;
    }
    var r := rs[idx - 1];
    b := x >= r.from && x <= r.to;
    if Separated(rs) && Covers(rs, x) {
      var k :| 0 <= k < |rs| && In(rs[k], x);
      if k < idx - 1 {
        SeparatedAfter(rs, k, idx - 1);
      }
    }
  }

  /** In separated ranges every later range starts past the end of an
      earlier one. */
  lemma SeparatedAfter(rs: seq<Range>, k: nat, m: nat)
    requires Separated(rs) && k < m < |rs|
    ensures rs[m].from > rs[k].to + 1
  {
    assert rs[m].from >= rs[k + 1].from;
  }

  // ================================================================ answers

  /** One range line: split at the first '-', both sides parsed (`unwrap`). */
  function ParseRange(line: string): Result<Range> {
    match SplitOnce(line, '-')
    case None => Err(NoneUnwrapped)
    case Some((a, b)) =>
      match (ParseNat(a), ParseNat(b))
      case (Some(from), Some(to)) => Ok(Range(from, to))
      case _ => Err(Unwrapped)
  }

  /** The text of a range, as the puzzle writes it. */
  function RangeText(r: Range): string {
    NatToString(r.from) + "-" + NatToString(r.to)
  }

  /** Parsing a line reads back the range its text writes. */
  lemma RangeTextParses(r: Range)
    ensures ParseRange(RangeText(r)) == Ok(r)
  {
    var a, b := NatToString(r.from), NatToString(r.to);
    assert '-' !in a by {
      assert forall i :: 0 <= i < |a| ==> IsDigit(a[i]);
    }
    assert RangeText(r) == a + ['-'] + b;
    SplitOnceJoin(a, '-', b);
  }

  /** `split_once("\n\n").unwrap()`: the range block and the ID block. */
  function Sections(input: string): Result<(seq<Range>, seq<string>)> {
    match SplitOncePattern(input, "\n\n")
    case None => Err(NoneUnwrapped)
    case Some((top, bottom)) =>
      var rs :- Collect(Map(ParseRange, Lines(top)));
      Ok((rs, Lines(bottom)))
  }

  /** Without a blank line the input is the `unwrap` error. */
  lemma SectionsNone(input: string)
    ensures (forall j: nat :: !OccursAt(input, "\n\n", j)) ==> Sections(input) == Err(NoneUnwrapped)
  {
    if SplitOncePattern(input, "\n\n").Some? {
      var (top, bottom) := SplitOncePattern(input, "\n\n").value;
      assert OccursAt(input, "\n\n", |top|) by {
        assert input[|top|..|top| + 2] == "\n\n";
      }
    }
  }

  /** Split at its first blank line, the input's ranges are read exactly
      when every line above parses, one range per line, and the IDs are the
      lines below. */
  lemma SectionsSome(input: string, top: string, bottom: string)
    requires SplitOncePattern(input, "\n\n") == Some((top, bottom))
    ensures input == top + "\n\n" + bottom
    ensures Sections(input).Ok? <==> forall i :: 0 <= i < |Lines(top)| ==> ParseRange(Lines(top)[i]).Ok?
    ensures Sections(input).Ok? ==>
      && |Sections(input).value.0| == |Lines(top)|
      && (forall i :: 0 <= i < |Lines(top)| ==> ParseRange(Lines(top)[i]) == Ok(Sections(input).value.0[i]))
      && Sections(input).value.1 == Lines(bottom)
  {
    var items := Map(ParseRange, Lines(top));
    CollectOk(items);
    var got := Collect(items);
    assert Sections(input) == if got.Ok? then Ok((got.value, Lines(bottom))) else Err(got.reason);
    assert forall i :: 0 <= i < |Lines(top)| ==> items[i] == ParseRange(Lines(top)[i]);
  }

  /** The reference count of the first part: the lines that parse as IDs
      and lie in some of the original, unmerged ranges. */
  function FreshIds(ids: seq<string>, rs: seq<Range>): nat {
    if |ids| == 0 then 0
    else
      (match ParseNat(ids[0])
       case Some(id) => if Covers(rs, id) then 1 else 0
       case None => 0)
      + FreshIds(ids[1..], rs)
  }

  // ================================================================ the puzzle's example

  /** `rs` are the fresh ranges of the puzzle's example, in input order. */
  predicate SampleRanges(rs: seq<Range>) {
    |rs| == 4 && rs[0] == Range(3, 5) && rs[1] == Range(10, 14) && rs[2] == Range(16, 20) && rs[3] == Range(12, 18)
  }

  /** `ids` are the available IDs of the puzzle's example. */
  predicate SampleIds(ids: seq<string>) {
    |ids| == 6 && ids[0] == "1" && ids[1] == "5" && ids[2] == "8" && ids[3] == "11" && ids[4] == "17" && ids[5] == "32"
  }

  /** The example's IDs as numbers. */
  lemma SampleIdValues()
    ensures ParseNat("1") == Some(1) && ParseNat("5") == Some(5) && ParseNat("8") == Some(8)
    ensures ParseNat("11") == Some(11) && ParseNat("17") == Some(17) && ParseNat("32") == Some(32)
  {
  }

  /** In the example, three of the available IDs are fresh: 5, 11 and 17. */
  lemma SampleFresh(ids: seq<string>, rs: seq<Range>)
    requires SampleIds(ids) && SampleRanges(rs)
    ensures FreshIds(ids, rs) == 3
  {
    SampleIdValues();
    assert In(rs[0], 5) && In(rs[1], 11) && In(rs[2], 17);
    assert !Covers(rs, 1) && !Covers(rs, 8) && !Covers(rs, 32);
    assert FreshIds(ids[6..], rs) == 0;
    assert FreshIds(ids[5..], rs) == 0 + FreshIds(ids[6..], rs) by {
      assert ids[5..][0] == ids[5] && ids[5..][1..] == ids[6..];
    }
    assert FreshIds(ids[4..], rs) == 1 + FreshIds(ids[5..], rs) by {
      assert ids[4..][0] == ids[4] && ids[4..][1..] == ids[5..];
    }
    assert FreshIds(ids[3..], rs) == 1 + FreshIds(ids[4..], rs) by {
      assert ids[3..][0] == ids[3] && ids[3..][1..] == ids[4..];
    }
    assert FreshIds(ids[2..], rs) == 0 + FreshIds(ids[3..], rs) by {
      assert ids[2..][0] == ids[2] && ids[2..][1..] == ids[3..];
    }
    assert FreshIds(ids[1..], rs) == 1 + FreshIds(ids[2..], rs) by {
      assert ids[1..][0] == ids[1] && ids[1..][1..] == ids[2..];
    }
    assert FreshIds(ids, rs) == 0 + FreshIds(ids[1..], rs);
  }

  /** The example's ranges cover the IDs 3..5 and 10..20. */
  lemma SampleCovered(rs: seq<Range>)
    requires SampleRanges(rs)
    ensures forall x :: Covers(rs, x) <==> 3 <= x <= 5 || 10 <= x <= 20
  {
    forall x
      ensures Covers(rs, x) <==> 3 <= x <= 5 || 10 <= x <= 20
    {
      if 3 <= x <= 5 {
        assert In(rs[0], x);
      } else if 10 <= x <= 14 {
        assert In(rs[1], x);
      } else if 15 <= x <= 18 {
        assert In(rs[3], x);
      } else if 19 <= x <= 20 {
        assert In(rs[2], x);
      }
    }
  }

  /** Ranges that cover two spans with a gap between them cover as many
      IDs as both spans together. */
  lemma CoveredTwoSpans(rs: seq<Range>, a: int, b: int, c: int, d: int)
    requires a <= b + 1 && b < c && c <= d + 1
    requires forall x :: Covers(rs, x) <==> a <= x <= b || c <= x <= d
    ensures |CoveredSet(rs)| == (b - a + 1) + (d - c + 1)
  {
    assert CoveredSet(rs) == Span(a, b) + Span(c, d);
    assert Span(a, b) * Span(c, d) == {};
  }

  /** The example's ranges are well formed. */
  lemma SampleWellFormed(rs: seq<Range>)
    requires SampleRanges(rs)
    ensures forall r :: r in rs ==> r.from <= r.to
  {
    forall r | r in rs
      ensures r.from <= r.to
    {
      var i :| 0 <= i < |rs| && rs[i] == r;
      assert i == 0 || i == 1 || i == 2 || i == 3;
    }
  }

  /** In the example, the merged ranges hold 14 IDs. */
  lemma SampleCount(rs: seq<Range>)
    requires SampleRanges(rs)
    ensures Count(Merged(rs)) == Ok(14)
  {
    assert Count(Merged(rs)).Ok? && Count(Merged(rs)).value == |CoveredSet(rs)| by {
      SampleWellFormed(rs);
      MergedCountsCovered(rs);
    }
    assert |CoveredSet(rs)| == 14 by {
      SampleCovered(rs);
      CoveredTwoSpans(rs, 3, 5, 10, 20);
    }
  }

  /** `Day05::first`: merge, then test each parsable ID by binary search.
      It counts the same IDs as testing every original range. */
  method FirstAnswer(input: string) returns (res: Result<nat>)
    ensures Sections(input).Err? ==> res == Err(Sections(input).reason)
    ensures Sections(input).Ok? ==>
      res == Ok(FreshIds(Sections(input).value.1, Sections(input).value.0))
  {
    var sections := Sections(input);
    if sections.Err? {
      return Err(sections.reason);
    }
    var (rs, ids) := sections.value;
    var merged := Merged(rs);
    MergedShape(rs);
    var n := 0;
    for i := |ids| downto 0
      invariant n == FreshIds(ids[i..], rs)
    {
      assert ids[i..][1..] == ids[i + 1..];
      match ParseNat(ids[i])
      case Some(id) =>
        var hit := Contains(merged, id);
        if hit {
          n := n + 1;
        }
      case None =>
    }
    assert ids[0..] == ids;
    res := Ok(n);
  }

  /** `Day05::second`: the number of IDs the merged ranges cover, which is
      the number the input ranges cover. */
  function SecondAnswer(input: string): Result<nat> {
    var (rs, _) :- Sections(input);
    Count(Merged(rs))
  }

  lemma SecondCountsCovered(input: string)
    requires Sections(input).Ok?
    ensures SecondAnswer(input).Ok? ==>
      SecondAnswer(input).value == |CoveredSet(Sections(input).value.0)|
    ensures (forall r :: r in Sections(input).value.0 ==> r.from <= r.to) ==> SecondAnswer(input).Ok?
  {
    MergedCountsCovered(Sections(input).value.0);
  }

  /** The count of the merged ranges is the number of distinct IDs the
      ranges cover, and exists when every range is well formed. */
  lemma MergedCountsCovered(rs: seq<Range>)
    ensures Count(Merged(rs)).Ok? ==> Count(Merged(rs)).value == |CoveredSet(rs)|
    ensures (forall r :: r in rs ==> r.from <= r.to) ==> Count(Merged(rs)).Ok?
  {
    var m := Merged(rs);
    MergedShape(rs);
    if Count(m).Ok? {
      CountCovered(m);
      assert CoveredSet(m) == CoveredSet(rs);
    }
    if forall r :: r in rs ==> r.from <= r.to {
      MergedWellFormed(rs);
    }
  }

  /** Merging well-formed ranges makes well-formed ranges. */
  lemma MergedWellFormed(rs: seq<Range>)
    requires forall r :: r in rs ==> r.from <= r.to
    ensures forall k :: 0 <= k < |Merged(rs)| ==> Merged(rs)[k].from <= Merged(rs)[k].to
  {
    var sorted := SortByFrom(rs);
    forall r | r in sorted
      ensures r.from <= r.to
    {
      assert r in multiset(sorted);
    }
    MergeAllWellFormed([], sorted);
  }

  lemma {:induction false} MergeAllWellFormed(merged: seq<Range>, rs: seq<Range>)
    requires forall r :: r in merged ==> r.from <= r.to
    requires forall r :: r in rs ==> r.from <= r.to
    ensures forall r :: r in MergeAll(merged, rs) ==> r.from <= r.to
    decreases |rs|
  {
    if |rs| > 0 {
      var next := MergeStep(merged, rs[0]);
      assert forall r :: r in next ==> r.from <= r.to by {
        forall r | r in next
          ensures r.from <= r.to
        {
          if r !in merged && r != rs[0] {
            assert r == next[|next| - 1];
          }
        }
      }
      MergeAllWellFormed(next, rs[1..]);
    }
  }
}

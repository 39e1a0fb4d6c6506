/** The invalid product IDs of `day_02.rs`.

    The input is a comma-separated list of inclusive ID ranges "a-b". An ID
    is invalid for the first part when its decimal form is some block
    written twice, and for the second part when it is some block written
    two or more times. Each answer sums the invalid IDs over all ranges. */
module Day02 {
  import opened Results
  import opened Text
  import opened Arith

  /** `Range`: the inclusive bounds of an ID range. */
  datatype Range = Range(min: int, max: int)

  // ================================================================ parsing

  /** The non-empty pieces of `ps`, in order (the empty pieces filtered out). */
  function NonEmpty(ps: seq<string>): (qs: seq<string>)
    ensures forall i :: 0 <= i < |qs| ==> |qs[i]| > 0
  {
    if |ps| == 0 then []
    else if |ps[0]| == 0 then NonEmpty(ps[1..])
    else [ps[0]] + NonEmpty(ps[1..])
  }

  /** One range: split at the first '-' (`expect`), both sides parsed as
      signed integers (`unwrap`). */
  function ParseRange(piece: string): Result<Range> {
    match SplitOnce(piece, '-')
    case None => Err("Each range must contain '-'")
    case Some((a, b)) =>
      match (ParseInt(a), ParseInt(b))
      case (Some(lo), Some(hi)) => Ok(Range(lo, hi))
      case _ => Err("called `Result::unwrap()` on an `Err` value")
  }

  function ParseEach(ps: seq<string>): (res: Result<seq<Range>>)
    ensures res.Ok? ==> |res.value| == |ps|
  {
    if |ps| == 0 then Ok([])
    else
      var r :- ParseRange(ps[0]);
      var rest :- ParseEach(ps[1..]);
      Ok([r] + rest)
  }

  /** `parse_ranges`: trim the input, split it on ',' and parse every
      non-empty piece. */
  function ParseRanges(input: string): Result<seq<Range>> {
    ParseEach(NonEmpty(Split(Trim(input), ',')))
  }

  /** The text of one range, "min-max". */
  function RangeText(r: Range): string {
    IntToString(r.min) + "-" + IntToString(r.max)
  }

  /** The puzzle text of a non-empty list of ranges. */
  function RangesText(rs: seq<Range>): string
    requires |rs| >= 1
  {
    Join(seq(|rs|, i requires 0 <= i < |rs| => RangeText(rs[i])), ',')
  }

  /** Parsing reads back what `RangesText` writes, for ranges whose lower
      bound is not negative (a leading '-' would be taken for the
      separator). */
  lemma ParseRangesText(rs: seq<Range>)
    requires |rs| >= 1
    requires forall i :: 0 <= i < |rs| ==> rs[i].min >= 0
    ensures ParseRanges(RangesText(rs)) == Ok(rs)
  {
    var ps := seq(|rs|, i requires 0 <= i < |rs| => RangeText(rs[i]));
    forall i | 0 <= i < |ps|
      ensures ',' !in ps[i] && |ps[i]| > 0
      ensures ParseRange(ps[i]) == Ok(rs[i])
    {
      RangeTextParses(rs[i]);
    }
    var text := Join(ps, ',');
    JoinEnds(ps, rs);
    TrimUnchanged(text);
    SplitJoin(ps, ',');
    ParsePieces(rs, ps);
  }

  /** The range text has no ',' and parses back to the range. */
  lemma RangeTextParses(r: Range)
    requires r.min >= 0
    ensures ',' !in RangeText(r) && |RangeText(r)| > 0
    ensures ParseRange(RangeText(r)) == Ok(r)
  {
    var a := IntToString(r.min);
    var b := IntToString(r.max);
    var t := a + "-" + b;
    NumeralChars(r.min);
    NumeralChars(r.max);
    assert '-' !in a;
    assert t == a + ['-'] + b;
    IndexOfJoin(a, '-', b);
    assert t[..|a|] == a && t[|a| + 1..] == b;
    assert SplitOnce(t, '-') == Some((a, b));
    ParseIntToString(r.min);
    ParseIntToString(r.max);
  }

  /** A numeral holds digits and at most a leading '-', starts with a digit
      or '-', and ends in a digit; a numeral of a non-negative number holds
      digits only. */
  lemma NumeralChars(n: int)
    ensures var s := IntToString(n);
      && |s| > 0 && IsDigit(s[|s| - 1]) && (IsDigit(s[0]) || s[0] == '-')
      && (forall i :: 0 < i < |s| ==> IsDigit(s[i]))
      && (n >= 0 ==> IsDigit(s[0]))
  {
    if n < 0 {
      var s := IntToString(n);
      assert s == "-" + NatToString(-n);
      assert forall i :: 0 < i < |s| ==> s[i] == NatToString(-n)[i - 1];
    }
  }

  /** The joined text starts and ends with a digit. */
  lemma JoinEnds(ps: seq<string>, rs: seq<Range>)
    requires |ps| == |rs| >= 1
    requires forall i :: 0 <= i < |rs| ==> rs[i].min >= 0 && ps[i] == RangeText(rs[i])
    ensures var t := Join(ps, ','); |t| > 0 && IsDigit(t[0]) && IsDigit(t[|t| - 1])
    decreases |ps|
  {
    NumeralChars(rs[0].min);
    NumeralChars(rs[0].max);
    if |ps| > 1 {
      JoinEnds(ps[1..], rs[1..]);
    }
  }

  /** Trimming leaves a text alone that starts and ends with a digit. */
  lemma TrimUnchanged(t: string)
    requires |t| > 0 && IsDigit(t[0]) && IsDigit(t[|t| - 1])
    ensures Trim(t) == t
  {
    assert !IsWhitespace(t[0]) && !IsWhitespace(t[|t| - 1]);
  }

  lemma {:induction false} ParsePieces(rs: seq<Range>, ps: seq<string>)
    requires |ps| == |rs|
    requires forall i :: 0 <= i < |ps| ==> |ps[i]| > 0 && ParseRange(ps[i]) == Ok(rs[i])
    ensures NonEmpty(ps) == ps
    ensures ParseEach(ps) == Ok(rs)
  {
    if |ps| > 0 {
      ParsePieces(rs[1..], ps[1..]);
      assert ps == [ps[0]] + ps[1..];
      assert rs == [rs[0]] + rs[1..];
    }
  }

  // ================================================================ repetition

  /** `b` written `k` times (`str::repeat`). */
  function Repeat(b: string, k: nat): (s: string)
    ensures |s| == k * |b|
  {
    if k == 0 then [] else b + Repeat(b, k - 1)
  }

  /** `is_double_repeat`: the decimal form has even length and its two
      halves agree. */
  predicate IsDoubleRepeat(n: int) {
    var s := IntToString(n);
    |s| % 2 == 0 && s[..|s| / 2] == s[|s| / 2..]
  }

  /** The first `p` characters of `s`, repeated, make up `s`. */
  predicate HasPeriod(s: string, p: nat) {
    1 <= p <= |s| && |s| % p == 0 && Repeat(s[..p], |s| / p) == s
  }

  /** `any` over the block lengths `1..=m` that divide the length. */
  predicate HasPeriodUpTo(s: string, m: nat) {
    m >= 1 && (HasPeriodUpTo(s, m - 1) || HasPeriod(s, m))
  }

  /** `is_repeated_at_least_twice`: some block length up to half the
      length repeats to the whole decimal form. */
  predicate IsRepeatedAtLeastTwice(n: int) {
    var s := IntToString(n);
    HasPeriodUpTo(s, |s| / 2)
  }

  /** The reference definition: `s` is some block written twice. */
  ghost predicate IsTwice(s: string) {
    exists h :: s == h + h
  }

  /** The reference definition: `s` is some block written `k >= 2` times. */
  ghost predicate IsRepetition(s: string) {
    exists b, k: nat :: k >= 2 && s == Repeat(b, k)
  }

  lemma DoubleRepeatIsTwice(n: int)
    ensures IsDoubleRepeat(n) <==> IsTwice(IntToString(n))
  {
    var s := IntToString(n);
    if IsTwice(s) {
      var h :| s == h + h;
      assert s[..|h|] == h && s[|h|..] == h;
    }
    if IsDoubleRepeat(n) {
      var h := s[..|s| / 2];
      assert s == h + h;
    }
  }

  lemma {:induction false} HasPeriodUpToWitness(s: string, m: nat)
    ensures HasPeriodUpTo(s, m) <==> exists p :: 1 <= p <= m && HasPeriod(s, p)
  {
    if m >= 1 {
      HasPeriodUpToWitness(s, m - 1);
    }
  }

  /** `Repeat(b, k)` starts with `b` when `k >= 1`. */
  lemma RepeatStarts(b: string, k: nat)
    requires k >= 1
    ensures Repeat(b, k)[..|b|] == b
  {
  }

  lemma RepeatedIsRepetition(n: int)
    ensures IsRepeatedAtLeastTwice(n) <==> IsRepetition(IntToString(n))
  {
    var s := IntToString(n);
    HasPeriodUpToWitness(s, |s| / 2);
    if IsRepeatedAtLeastTwice(n) {
      var p :| 1 <= p <= |s| / 2 && HasPeriod(s, p);
      PeriodIsRepetition(s, p);
    }
    if IsRepetition(s) {
      var b, k: nat :| k >= 2 && s == Repeat(b, k);
      RepetitionHasPeriod(s, b, k);
    }
  }

  lemma PeriodIsRepetition(s: string, p: nat)
    requires 1 <= p <= |s| / 2 && HasPeriod(s, p)
    ensures IsRepetition(s)
  {
    var k := |s| / p;
    assert k >= 2;
    assert s == Repeat(s[..p], k);
  }

  lemma RepetitionHasPeriod(s: string, b: string, k: nat)
    requires k >= 2 && s == Repeat(b, k) && |s| > 0
    ensures exists p :: 1 <= p <= |s| / 2 && HasPeriod(s, p)
  {
    var m := |b|;
    assert m > 0;
    assert |s| == k * m;
    MulDiv(k, m);
    RepeatStarts(b, k);
    assert s[..m] == b;
    assert 2 * m <= k * m;
    assert HasPeriod(s, m);
  }

  /** An ID that is a block written twice is a repetition. */
  lemma DoubleImpliesRepeated(n: int)
    ensures IsDoubleRepeat(n) ==> IsRepeatedAtLeastTwice(n)
  {
    if IsDoubleRepeat(n) {
      var s := IntToString(n);
      var h := s[..|s| / 2];
      assert s == h + h;
      assert Repeat(h, 2) == h + h + [];
      RepeatedIsRepetition(n);
    }
  }

  /** Neither rule holds for a single-digit or a negative ID. */
  lemma SmallAndNegativeValid(n: int)
    requires n < 10
    ensures !IsDoubleRepeat(n) && !IsRepeatedAtLeastTwice(n)
  {
    if n < 0 {
      NegativeNotDouble(n);
      NegativeNotRepeated(n);
    } else {
      assert |IntToString(n)| == 1;
    }
  }

  /** A minus sign at the front matches no later character. */
  lemma NegativeNotDouble(n: int)
    requires n < 0
    ensures !IsDoubleRepeat(n)
  {
    var s := IntToString(n);
    NumeralChars(n);
    assert s[0] == '-';
    assert !IsDigit(s[0]);
    assert |s| / 2 > 0 ==> IsDigit(s[|s| / 2]);
  }

  lemma NegativeNotRepeated(n: int)
    requires n < 0
    ensures !IsRepeatedAtLeastTwice(n)
  {
    RepeatedIsRepetition(n);
    NegativeNotRepetition(n);
  }

  lemma NegativeNotRepetition(n: int)
    requires n < 0
    ensures !IsRepetition(IntToString(n))
  {
    var s := IntToString(n);
    NumeralChars(n);
    forall b, k: nat | k >= 2
      ensures s != Repeat(b, k)
    {
      if |b| > 0 {
        RepeatSecondBlock(b, k);
      }
    }
  }

  /** In a repetition the second block starts like the first. */
  lemma RepeatSecondBlock(b: string, k: nat)
    requires k >= 2 && |b| > 0
    ensures Repeat(b, k)[|b|] == Repeat(b, k)[0] == b[0]
  {
    RepeatStarts(b, k - 1);
  }

  // ================================================================ answers

  /** The rule of each part. */
  datatype Rule = Twice | AtLeastTwice

  predicate Invalid(rule: Rule, n: int) {
    match rule
    case Twice => IsDoubleRepeat(n)
    case AtLeastTwice => IsRepeatedAtLeastTwice(n)
  }

  /** The invalid IDs in `lo..=hi`, added up. */
  function SumInvalid(rule: Rule, lo: int, hi: int): int
    decreases hi - lo
  {
    if lo > hi then 0 else (if Invalid(rule, lo) then lo else 0) + SumInvalid(rule, lo + 1, hi)
  }

  /** The invalid IDs of all ranges, added up (`flat_map` then `sum`). */
  function SumRanges(rule: Rule, rs: seq<Range>): int {
    if |rs| == 0 then 0 else SumInvalid(rule, rs[0].min, rs[0].max) + SumRanges(rule, rs[1..])
  }

  /** `Day02::first` and `Day02::second`. */
  function Answer(rule: Rule, input: string): Result<int> {
    var rs :- ParseRanges(input);
    Ok(SumRanges(rule, rs))
  }

  /** Every ID invalid for the first part is invalid for the second and
      not negative, so the range sums of the second part are at least
      those of the first. */
  lemma {:induction false} SumInvalidMonotone(lo: int, hi: int)
    ensures SumInvalid(AtLeastTwice, lo, hi) >= SumInvalid(Twice, lo, hi)
    decreases hi - lo
  {
    if lo <= hi {
      DoubleImpliesRepeated(lo);
      if lo < 10 {
        SmallAndNegativeValid(lo);
      }
      SumInvalidMonotone(lo + 1, hi);
    }
  }

  lemma {:induction false} SumRangesMonotone(rs: seq<Range>)
    ensures SumRanges(AtLeastTwice, rs) >= SumRanges(Twice, rs)
  {
    if |rs| > 0 {
      SumInvalidMonotone(rs[0].min, rs[0].max);
      SumRangesMonotone(rs[1..]);
    }
  }

  /** Both parts fail on the same inputs, and the second answer is at least
      the first. */
  lemma SecondAtLeastFirst(input: string)
    ensures Answer(Twice, input).Ok? <==> Answer(AtLeastTwice, input).Ok?
    ensures Answer(Twice, input).Ok? ==> Answer(AtLeastTwice, input).value >= Answer(Twice, input).value
  {
    if ParseRanges(input).Ok? {
      SumRangesMonotone(ParseRanges(input).value);
    }
  }
}

/** The cephalopod math worksheet of `day_06.rs`.

    The worksheet is a block of text whose last line holds the operators.
    The first part reads each line as whitespace-separated numbers and
    applies the `i`-th operator to the `i`-th number of every line. The
    second part reads problems as blocks of columns separated by all-blank
    columns; each column, read top to bottom, is one number, and the
    numbers of a block are taken right to left. */
module Day06 {
  import opened Results
  import opened Text
  import opened Seqs

  datatype Op = Add | Mul

  const NoneUnwrapped := "called `Option::unwrap()` on a `None` value"
  const Unwrapped := "called `Result::unwrap()` on an `Err` value"
  const Unreachable := "internal error: entered unreachable code"
  const Underflow := "attempt to subtract with overflow"
  const NotANumber := "Column digits form a valid integer"

  /** `Op::Add` sums, `Op::Mul` multiplies from 1. */
  function Eval(op: Op, values: seq<int>): int {
    match op
    case Add => Sum(values)
    case Mul => Product(values)
  }

  // ================================================================ first part

  /** The operator tokens of the last line; anything but "+" or "*" is
      `unreachable!`. */
  function ParseOps(tokens: seq<string>): (res: Result<seq<Op>>)
    ensures res.Ok? <==> forall i :: 0 <= i < |tokens| ==> tokens[i] == "+" || tokens[i] == "*"
    ensures res.Ok? ==> |res.value| == |tokens|
    ensures res.Ok? ==> forall i :: 0 <= i < |tokens| ==> (res.value[i] == Add <==> tokens[i] == "+")
  {
    if |tokens| == 0 then Ok([])
    else
      var op :- if tokens[0] == "+" then Ok(Add) else if tokens[0] == "*" then Ok(Mul) else Err(Unreachable);
      var rest :- ParseOps(tokens[1..]);
      Ok([op] + rest)
  }

  /** The whitespace-separated words of each line. */
  function Words(lines: seq<string>): (rows: seq<seq<string>>)
    ensures |rows| == |lines| && forall j :: 0 <= j < |lines| ==> rows[j] == SplitWhitespace(lines[j])
  {
    seq(|lines|, j requires 0 <= j < |lines| => SplitWhitespace(lines[j]))
  }

  /** The `i`-th number of a line's words: a line with too few words
      fails the `nth` unwrap, a word that is no number fails the `parse`
      unwrap. */
  function Token(words: seq<string>, i: nat): (res: Result<int>)
    ensures res.Ok? <==> i < |words| && ParseInt(words[i]).Some?
    ensures res.Ok? ==> ParseInt(words[i]) == Some(res.value)
  {
    if i >= |words| then Err(NoneUnwrapped)
    else match ParseInt(words[i])
      case Some(v) => Ok(v)
      case None => Err(Unwrapped)
  }

  /** The `i`-th number of every line, top to bottom. */
  function Column(rows: seq<seq<string>>, i: nat): (res: Result<seq<int>>)
    ensures res.Ok? ==> |res.value| == |rows|
  {
    if |rows| == 0 then Ok([])
    else
      var v :- Token(rows[0], i);
      var rest :- Column(rows[1..], i);
      Ok([v] + rest)
  }

  /** A column is read exactly when every line has a number at position
      `i`. */
  lemma {:induction false} ColumnOk(rows: seq<seq<string>>, i: nat)
    ensures Column(rows, i).Ok? <==> forall j :: 0 <= j < |rows| ==> Token(rows[j], i).Ok?
  {
    if |rows| > 0 {
      ColumnOk(rows[1..], i);
      assert forall j :: 1 <= j < |rows| ==> rows[j] == rows[1..][j - 1];
    }
  }

  /** A column that is read holds the numbers at position `i`, top to
      bottom. */
  lemma {:induction false} ColumnTokens(rows: seq<seq<string>>, i: nat)
    requires Column(rows, i).Ok?
    ensures forall j :: 0 <= j < |rows| ==> Token(rows[j], i) == Ok(Column(rows, i).value[j])
  {
    if |rows| > 0 {
      ColumnTokens(rows[1..], i);
      assert forall j :: 1 <= j < |rows| ==> rows[j] == rows[1..][j - 1];
    }
  }

  /** The columns `from..n`, one per operator. */
  function Columns(rows: seq<seq<string>>, from: nat, n: nat): (res: Result<seq<seq<int>>>)
    requires from <= n
    ensures res.Ok? ==> |res.value| == n - from
    decreases n - from
  {
    if from == n then Ok([])
    else
      var c :- Column(rows, from);
      var rest :- Columns(rows, from + 1, n);
      Ok([c] + rest)
  }

  /** The columns are read exactly when each one is. */
  lemma {:induction false} ColumnsOk(rows: seq<seq<string>>, from: nat, n: nat)
    requires from <= n
    ensures Columns(rows, from, n).Ok? <==> forall i :: from <= i < n ==> Column(rows, i).Ok?
    decreases n - from
  {
    if from < n {
      ColumnsOk(rows, from + 1, n);
      if !Column(rows, from).Ok? {
        assert !Columns(rows, from, n).Ok?;
        assert exists i: nat :: from <= i < n && !Column(rows, i).Ok?;
      } else if Columns(rows, from + 1, n).Ok? {
        assert Columns(rows, from, n).Ok?;
      } else {
        assert !Columns(rows, from, n).Ok?;
      }
    }
  }

  /** The columns `0..n` are read exactly when every line has a number
      at each of the positions `0..n`. */
  lemma ColumnsTokensOk(rows: seq<seq<string>>, n: nat)
    ensures Columns(rows, 0, n).Ok? <==> forall i, j :: 0 <= i < n && 0 <= j < |rows| ==> Token(rows[j], i).Ok?
  {
    ColumnsOk(rows, 0, n);
    if Columns(rows, 0, n).Ok? {
      forall i, j | 0 <= i < n && 0 <= j < |rows|
        ensures Token(rows[j], i).Ok?
      {
        ColumnOk(rows, i);
      }
    } else {
      var i :| 0 <= i < n && !Column(rows, i).Ok?;
      ColumnOk(rows, i);
    }
  }

  /** The `i`-th of the columns read is the column of the numbers at
      position `from + i`. */
  lemma {:induction false} ColumnsEach(rows: seq<seq<string>>, from: nat, n: nat)
    requires from <= n && Columns(rows, from, n).Ok?
    ensures forall i :: from <= i < n ==> Column(rows, i) == Ok(Columns(rows, from, n).value[i - from])
    decreases n - from
  {
    if from < n {
      ColumnsEach(rows, from + 1, n);
    }
  }

  /** The total of the problems, the `i`-th operator applied to the `i`-th
      column. */
  function Total(ops: seq<Op>, columns: seq<seq<int>>): int
    requires |ops| == |columns|
  {
    if |ops| == 0 then 0 else Total(ops[..|ops| - 1], columns[..|ops| - 1]) + Eval(ops[|ops| - 1], columns[|ops| - 1])
  }

  /** The line of operators and the lines of numbers above it. */
  function OpLine(lines: seq<string>): string
    requires |lines| > 0
  {
    lines[|lines| - 1]
  }

  function NumberLines(lines: seq<string>): (body: seq<string>)
    requires |lines| > 0
    ensures |body| == |lines| - 1 && forall j :: 0 <= j < |body| ==> body[j] == lines[j]
  {
    lines[..|lines| - 1]
  }

  /** `Day06::first`. */
  function FirstAnswer(input: string): (r: Result<int>)
    ensures |Lines(input)| == 0 ==> r == Err(NoneUnwrapped)
  {
    var lines := Lines(input);
    if |lines| == 0 then Err(NoneUnwrapped)
    else
      var ops :- ParseOps(SplitWhitespace(OpLine(lines)));
      var columns :- Columns(Words(NumberLines(lines)), 0, |ops|);
      Ok(Total(ops, columns))
  }

  /** The first part succeeds exactly when every operator is '+' or '*'
      and every line above has, for each operator, a number at that
      position. */
  lemma FirstAnswerOk(input: string)
    requires |Lines(input)| > 0
    ensures var lines := Lines(input); var tokens := SplitWhitespace(OpLine(lines));
      FirstAnswer(input).Ok? <==>
        && ParseOps(tokens).Ok?
        && forall i, j :: 0 <= i < |tokens| && 0 <= j < |lines| - 1 ==> Token(Words(NumberLines(lines))[j], i).Ok?
  {
    var lines := Lines(input);
    var tokens := SplitWhitespace(OpLine(lines));
    var body := Words(NumberLines(lines));
    if ParseOps(tokens).Ok? {
      var ops := ParseOps(tokens).value;
      assert FirstAnswer(input).Ok? <==> Columns(body, 0, |ops|).Ok?;
      ColumnsTokensOk(body, |ops|);
    }
  }

  /** The `i`-th number of a line, or 0 where it has none. */
  function TokenValue(words: seq<string>, i: nat): int {
    match Token(words, i)
    case Ok(v) => v
    case Err(_) => 0
  }

  /** Each line's sum of its first `n` numbers. */
  function LineSums(rows: seq<seq<string>>, n: nat): (sums: seq<int>)
    ensures |sums| == |rows|
  {
    seq(|rows|, j requires 0 <= j < |rows| => Sum(seq(n, i requires 0 <= i < n => TokenValue(rows[j], i))))
  }

  /** When every operator is '+', the first answer is the sum of all the
      numbers, however they are grouped: the total of the line sums. */
  lemma FirstAnswerAllAdd(input: string)
    requires FirstAnswer(input).Ok?
    requires var lines := Lines(input); |lines| > 0 && forall t :: t in SplitWhitespace(OpLine(lines)) ==> t == "+"
    ensures var lines := Lines(input);
      FirstAnswer(input).value == Sum(LineSums(Words(NumberLines(lines)), |SplitWhitespace(OpLine(lines))|))
  {
    var lines := Lines(input);
    var tokens := SplitWhitespace(OpLine(lines));
    var body := Words(NumberLines(lines));
    var ops := ParseOps(tokens).value;
    assert Columns(body, 0, |ops|).Ok? && FirstAnswer(input) == Ok(Total(ops, Columns(body, 0, |ops|).value));
    AllAddTotal(tokens, body);
  }

  /** With only '+' operators, the total of the columns is the total of
      the line sums. */
  lemma AllAddTotal(tokens: seq<string>, body: seq<seq<string>>)
    requires forall t :: t in tokens ==> t == "+"
    requires ParseOps(tokens).Ok? && Columns(body, 0, |tokens|).Ok?
    ensures Total(ParseOps(tokens).value, Columns(body, 0, |tokens|).value) == Sum(LineSums(body, |tokens|))
  {
    var ops := ParseOps(tokens).value;
    var columns := Columns(body, 0, |ops|).value;
    forall i | 0 <= i < |ops|
      ensures ops[i] == Add
    {
      assert tokens[i] in tokens;
    }
    ColumnsEach(body, 0, |ops|);
    forall i | 0 <= i < |columns|
      ensures |columns[i]| == |body|
    {
      assert Column(body, i) == Ok(columns[i]);
    }
    AllAddSumsRows(ops, columns, |body|);
    forall j | 0 <= j < |body|
      ensures Rows(columns, j) == seq(|ops|, i requires 0 <= i < |ops| => TokenValue(body[j], i))
    {
      forall i | 0 <= i < |ops|
        ensures columns[i][j] == TokenValue(body[j], i)
      {
        assert Column(body, i) == Ok(columns[i]);
        ColumnTokens(body, i);
      }
    }
    assert RowSums(columns, |body|) == LineSums(body, |ops|);
  }

  /** The numbers read row by row: row `j` holds the `j`-th number of
      every column. */
  function Rows(columns: seq<seq<int>>, j: nat): (row: seq<int>)
    requires forall i :: 0 <= i < |columns| ==> j < |columns[i]|
    ensures |row| == |columns|
  {
    seq(|columns|, i requires 0 <= i < |columns| => columns[i][j])
  }

  /** The sums of the columns. */
  function ColumnSums(columns: seq<seq<int>>): (sums: seq<int>)
    ensures |sums| == |columns|
  {
    seq(|columns|, i requires 0 <= i < |columns| => Sum(columns[i]))
  }

  /** The sums of the `h` rows of a rectangle of numbers. */
  function RowSums(columns: seq<seq<int>>, h: nat): (sums: seq<int>)
    requires forall i :: 0 <= i < |columns| ==> |columns[i]| == h
    ensures |sums| == h
  {
    seq(h, j requires 0 <= j < h => Sum(Rows(columns, j)))
  }

  /** When every operator adds, the total is the sum of the line sums:
      reading the worksheet row by row gives the same answer. */
  lemma AllAddSumsRows(ops: seq<Op>, columns: seq<seq<int>>, h: nat)
    requires |ops| == |columns| && forall i :: 0 <= i < |ops| ==> ops[i] == Add
    requires forall i :: 0 <= i < |columns| ==> |columns[i]| == h
    ensures Total(ops, columns) == Sum(RowSums(columns, h))
  {
    AddTotal(ops, columns);
    SumExchange(columns, h);
  }

  lemma {:induction false} AddTotal(ops: seq<Op>, columns: seq<seq<int>>)
    requires |ops| == |columns|
    requires forall i :: 0 <= i < |ops| ==> ops[i] == Add
    ensures Total(ops, columns) == Sum(ColumnSums(columns))
  {
    if |ops| > 0 {
      var n := |ops|;
      AddTotal(ops[..n - 1], columns[..n - 1]);
      assert ColumnSums(columns)[..n - 1] == ColumnSums(columns[..n - 1]);
    }
  }

  /** Adding a rectangle of numbers column by column or row by row gives the
      same total. */
  lemma {:induction false} SumExchange(columns: seq<seq<int>>, h: nat)
    requires forall i :: 0 <= i < |columns| ==> |columns[i]| == h
    ensures Sum(ColumnSums(columns)) == Sum(RowSums(columns, h))
    decreases |columns|
  {
    var n := |columns|;
    if n == 0 {
      SumZero(RowSums(columns, h));
    } else {
      var init := columns[..n - 1];
      SumExchange(init, h);
      assert ColumnSums(columns)[..n - 1] == ColumnSums(init);
      var rowsInit := RowSums(init, h);
      var rowsAll := RowSums(columns, h);
      forall j | 0 <= j < h
        ensures rowsAll[j] == rowsInit[j] + columns[n - 1][j]
      {
        assert Rows(columns, j)[..n - 1] == Rows(init, j);
      }
      SumPointwise(rowsAll, rowsInit, columns[n - 1]);
    }
  }

  /** The sum of a pointwise sum is the sum of the sums. */
  lemma {:induction false} SumPointwise(a: seq<int>, b: seq<int>, c: seq<int>)
    requires |a| == |b| == |c|
    requires forall j :: 0 <= j < |a| ==> a[j] == b[j] + c[j]
    ensures Sum(a) == Sum(b) + Sum(c)
  {
    if |a| > 0 {
      var n := |a|;
      SumPointwise(a[..n - 1], b[..n - 1], c[..n - 1]);
    }
  }

  // ================================================================ the worksheet

  /** `ColRange`: the columns `start..end` of one problem. */
  datatype ColRange = ColRange(start: nat, end: nat)

  datatype Problem = Problem(cols: ColRange, op: Op)

  /** `Worksheet`: the padded grid, the index of the operator row and the
      problems found in it. */
  datatype Worksheet = Worksheet(grid: seq<string>, opRow: nat, problems: seq<Problem>)

  /** The length of the longest line, or 0 when there is none. */
  function MaxLen(lines: seq<string>): (m: nat)
    ensures forall j :: 0 <= j < |lines| ==> |lines[j]| <= m
    ensures |lines| == 0 ==> m == 0
    ensures |lines| > 0 ==> exists j :: 0 <= j < |lines| && |lines[j]| == m
  {
    if |lines| == 0 then 0
    else
      var rest := MaxLen(lines[1..]);
      assert forall j :: 1 <= j < |lines| ==> lines[j] == lines[1..][j - 1];
      if |lines[0]| >= rest then |lines[0]| else rest
  }

  function Spaces(n: nat): (s: string)
    ensures |s| == n && forall k :: 0 <= k < n ==> s[k] == ' '
  {
    seq(n, k => ' ')
  }

  /** A row of the grid: the line followed by spaces up to `width`. */
  function Pad(line: string, width: nat): (row: string)
    requires |line| <= width
    ensures |row| == width && row[..|line|] == line
    ensures forall k :: |line| <= k < width ==> row[k] == ' '
  {
    line + Spaces(width - |line|)
  }

  /** Every row has `width` bytes. */
  predicate Rectangular(grid: seq<string>, width: nat) {
    forall r :: 0 <= r < |grid| ==> |grid[r]| == width
  }

  /** `is_separator_col`: column `col` is blank in every row. */
  predicate IsSeparatorCol(grid: seq<string>, col: nat)
    requires forall r :: 0 <= r < |grid| ==> col < |grid[r]|
  {
    forall r :: 0 <= r < |grid| ==> grid[r][col] == ' '
  }

  /** Some range holds column `c`. */
  predicate InSomeRange(ranges: seq<ColRange>, c: nat) {
    exists k :: 0 <= k < |ranges| && ranges[k].start <= c < ranges[k].end
  }

  /** The problem ranges of a grid: non-empty, inside the grid, in order
      with a separator between two of them, each bounded by separators or
      the grid edge, and holding exactly the columns that are not
      separators. */
  ghost predicate ProblemRanges(grid: seq<string>, width: nat, ranges: seq<ColRange>)
    requires Rectangular(grid, width)
  {
    && (forall k :: 0 <= k < |ranges| ==> ranges[k].start < ranges[k].end <= width)
    && (forall k :: 0 <= k < |ranges| - 1 ==> ranges[k].end < ranges[k + 1].start)
    && (forall k :: 0 <= k < |ranges| ==> ranges[k].start == 0 || IsSeparatorCol(grid, ranges[k].start - 1))
    && (forall k :: 0 <= k < |ranges| ==> ranges[k].end == width || IsSeparatorCol(grid, ranges[k].end))
    && (forall c :: 0 <= c < width ==> (InSomeRange(ranges, c) <==> !IsSeparatorCol(grid, c)))
  }

  /** The state of the scan after the columns `0..c`: the closed ranges
      end before `start`, the open run `start..c` holds no separator, and
      left of `start` the closed ranges hold exactly the non-separators. */
  ghost predicate Scanned(grid: seq<string>, width: nat, ranges: seq<ColRange>, start: nat, c: nat)
    requires Rectangular(grid, width)
  {
    && start <= c <= width
    && (forall k :: 0 <= k < |ranges| ==> ranges[k].start < ranges[k].end < start)
    && (forall k :: 0 <= k < |ranges| - 1 ==> ranges[k].end < ranges[k + 1].start)
    && (forall k :: 0 <= k < |ranges| ==> ranges[k].start == 0 || IsSeparatorCol(grid, ranges[k].start - 1))
    && (forall k :: 0 <= k < |ranges| ==> IsSeparatorCol(grid, ranges[k].end))
    && (start == 0 || IsSeparatorCol(grid, start - 1))
    && (forall col :: start <= col < c ==> !IsSeparatorCol(grid, col))
    && (forall col :: 0 <= col < start ==> (InSomeRange(ranges, col) <==> !IsSeparatorCol(grid, col)))
  }

  /** `find_problem_ranges`: one left-to-right pass, closing a range at each
      separator column. */
  method FindProblemRanges(grid: seq<string>, width: nat) returns (ranges: seq<ColRange>)
    requires Rectangular(grid, width)
    ensures ProblemRanges(grid, width, ranges)
  {
    ranges := [];
    var start := 0;
    for c := 0 to width
      invariant Scanned(grid, width, ranges, start, c)
    {
      if IsSeparatorCol(grid, c) {
        if start < c {
          ScanClose(grid, width, ranges, start, c);
          ranges := ranges + [ColRange(start, c)];
        } else {
          ScanSkip(grid, width, ranges, start, c);
        }
        start := c + 1;
      } else {
        ScanOther(grid, width, ranges, start, c);
      }
    }
    if start < width {
      ScanFinish(grid, width, ranges, start);
      ranges := ranges + [ColRange(start, width)];
    } else {
      ScanDone(grid, width, ranges, start);
    }
  }

  /** A separator after a non-empty run closes the run. */
  lemma ScanClose(grid: seq<string>, width: nat, ranges: seq<ColRange>, start: nat, c: nat)
    requires Rectangular(grid, width) && Scanned(grid, width, ranges, start, c)
    requires start < c < width && IsSeparatorCol(grid, c)
    ensures Scanned(grid, width, ranges + [ColRange(start, c)], c + 1, c + 1)
  {
    var next := ranges + [ColRange(start, c)];
    forall col | 0 <= col < c + 1
      ensures InSomeRange(next, col) <==> !IsSeparatorCol(grid, col)
    {
      RangeCovering(next, col);
      assert next[..|ranges|] == ranges;
    }
  }

  /** A separator right after another (or at column 0) closes nothing. */
  lemma ScanSkip(grid: seq<string>, width: nat, ranges: seq<ColRange>, start: nat, c: nat)
    requires Rectangular(grid, width) && Scanned(grid, width, ranges, start, c)
    requires start == c < width && IsSeparatorCol(grid, c)
    ensures Scanned(grid, width, ranges, c + 1, c + 1)
  {
  }

  /** A column with a digit or an operator extends the open run. */
  lemma ScanOther(grid: seq<string>, width: nat, ranges: seq<ColRange>, start: nat, c: nat)
    requires Rectangular(grid, width) && Scanned(grid, width, ranges, start, c)
    requires c < width && !IsSeparatorCol(grid, c)
    ensures Scanned(grid, width, ranges, start, c + 1)
  {
  }

  /** At the right edge a non-empty open run becomes the last range. */
  lemma ScanFinish(grid: seq<string>, width: nat, ranges: seq<ColRange>, start: nat)
    requires Rectangular(grid, width) && Scanned(grid, width, ranges, start, width)
    requires start < width
    ensures ProblemRanges(grid, width, ranges + [ColRange(start, width)])
  {
    var next := ranges + [ColRange(start, width)];
    forall col | 0 <= col < width
      ensures InSomeRange(next, col) <==> !IsSeparatorCol(grid, col)
    {
      RangeCovering(next, col);
      assert next[..|ranges|] == ranges;
    }
  }

  /** At the right edge with no open run the closed ranges are all. */
  lemma ScanDone(grid: seq<string>, width: nat, ranges: seq<ColRange>, start: nat)
    requires Rectangular(grid, width) && Scanned(grid, width, ranges, start, width)
    requires start >= width
    ensures ProblemRanges(grid, width, ranges)
  {
  }

  /** A column is in the ranges with one more appended iff it is in the
      earlier ones or the new one. */
  lemma RangeCovering(ranges: seq<ColRange>, col: nat)
    requires |ranges| > 0
    ensures InSomeRange(ranges, col) <==>
      InSomeRange(ranges[..|ranges| - 1], col) || ranges[|ranges| - 1].start <= col < ranges[|ranges| - 1].end
  {
    var init := ranges[..|ranges| - 1];
    if InSomeRange(init, col) {
      var k :| 0 <= k < |init| && init[k].start <= col < init[k].end;
      assert ranges[k] == init[k];
    }
    if InSomeRange(ranges, col) {
      var k :| 0 <= k < |ranges| && ranges[k].start <= col < ranges[k].end;
      if k < |init| {
        assert init[k] == ranges[k];
      }
    }
  }

  /** The operator of a problem: '+' anywhere in its part of the operator
      row means addition, otherwise '*' means multiplication, otherwise the
      worksheet is rejected. */
  function ProblemOp(opLine: string, cols: ColRange): (res: Result<Op>)
    requires cols.start <= cols.end <= |opLine|
    ensures res == Ok(Add) <==> '+' in opLine[cols.start..cols.end]
    ensures res == Ok(Mul) <==> '+' !in opLine[cols.start..cols.end] && '*' in opLine[cols.start..cols.end]
  {
    var slice := opLine[cols.start..cols.end];
    if '+' in slice then Ok(Add)
    else if '*' in slice then Ok(Mul)
    else Err("No operator found in problem range [" + IntToString(cols.start) + ", " + IntToString(cols.end) + "]")
  }

  /** `build_problems`: one problem per range, in order. */
  function BuildProblems(opLine: string, ranges: seq<ColRange>): (res: Result<seq<Problem>>)
    requires forall k :: 0 <= k < |ranges| ==> ranges[k].start <= ranges[k].end <= |opLine|
    ensures res.Ok? <==> forall k :: 0 <= k < |ranges| ==> ProblemOp(opLine, ranges[k]).Ok?
    ensures res.Ok? ==> |res.value| == |ranges| && forall k :: 0 <= k < |ranges| ==>
      res.value[k] == Problem(ranges[k], ProblemOp(opLine, ranges[k]).value)
  {
    if |ranges| == 0 then Ok([])
    else
      var op :- ProblemOp(opLine, ranges[0]);
      var rest :- BuildProblems(opLine, ranges[1..]);
      Ok([Problem(ranges[0], op)] + rest)
  }

  // ================================================================ the ranges are determined

  /** Where the search for range `k` begins: the end of the range before. */
  function Before(ranges: seq<ColRange>, k: nat): nat
    requires k <= |ranges|
  {
    if k == 0 then 0 else ranges[k - 1].end
  }

  /** `s` is the first column from `p` on that is not a separator. */
  ghost predicate FirstRunStart(grid: seq<string>, width: nat, p: nat, s: nat)
    requires Rectangular(grid, width)
  {
    && p <= s < width && !IsSeparatorCol(grid, s)
    && forall c :: p <= c < s ==> IsSeparatorCol(grid, c)
  }

  /** The run of non-separator columns starting at `s` stops at `e`. */
  ghost predicate RunEnd(grid: seq<string>, width: nat, s: nat, e: nat)
    requires Rectangular(grid, width)
  {
    && s < e <= width
    && (forall c :: s <= c < e ==> !IsSeparatorCol(grid, c))
    && (e == width || IsSeparatorCol(grid, e))
  }

  /** Ranges further apart in the list are further apart in the grid. */
  lemma {:induction false} RangesApart(grid: seq<string>, width: nat, ranges: seq<ColRange>, j: nat, k: nat)
    requires Rectangular(grid, width) && ProblemRanges(grid, width, ranges)
    requires j < k < |ranges|
    ensures ranges[j].end < ranges[k].start
  {
    if j < k - 1 {
      RangesApart(grid, width, ranges, j, k - 1);
    }
  }

  /** No range holds a column between `Before(ranges, k)` and the start of
      range `k`, nor any column after the last range. */
  lemma OutsideRanges(grid: seq<string>, width: nat, ranges: seq<ColRange>, k: nat, c: nat)
    requires Rectangular(grid, width) && ProblemRanges(grid, width, ranges)
    requires k <= |ranges| && Before(ranges, k) <= c < width
    requires k < |ranges| ==> c < ranges[k].start
    ensures IsSeparatorCol(grid, c)
  {
    forall j | 0 <= j < |ranges|
      ensures !(ranges[j].start <= c < ranges[j].end)
    {
      if j < k - 1 {
        RangesApart(grid, width, ranges, j, k - 1);
      } else if k < j {
        RangesApart(grid, width, ranges, k, j);
      }
    }
  }

  /** Range `k` starts at the first non-separator after the range before
      it, and runs to the next separator. */
  lemma RangeIsRun(grid: seq<string>, width: nat, ranges: seq<ColRange>, k: nat)
    requires Rectangular(grid, width) && ProblemRanges(grid, width, ranges)
    requires k < |ranges|
    ensures FirstRunStart(grid, width, Before(ranges, k), ranges[k].start)
    ensures RunEnd(grid, width, ranges[k].start, ranges[k].end)
  {
    if k > 0 {
      RangesApart(grid, width, ranges, k - 1, k);
    }
    forall c | Before(ranges, k) <= c < ranges[k].start
      ensures IsSeparatorCol(grid, c)
    {
      OutsideRanges(grid, width, ranges, k, c);
    }
    forall c | ranges[k].start <= c < ranges[k].end
      ensures !IsSeparatorCol(grid, c)
    {
      assert InSomeRange(ranges, c);
    }
  }

  /** After the last range every column is a separator; before any other
      range comes the run its start begins. */
  lemma RangesAfter(grid: seq<string>, width: nat, ranges: seq<ColRange>, k: nat)
    requires Rectangular(grid, width) && ProblemRanges(grid, width, ranges)
    requires k <= |ranges|
    ensures k == |ranges| ==> forall c :: Before(ranges, k) <= c < width ==> IsSeparatorCol(grid, c)
    ensures k < |ranges| ==> FirstRunStart(grid, width, Before(ranges, k), ranges[k].start)
  {
    if k < |ranges| {
      RangeIsRun(grid, width, ranges, k);
    } else {
      forall c | Before(ranges, k) <= c < width
        ensures IsSeparatorCol(grid, c)
      {
        OutsideRanges(grid, width, ranges, k, c);
      }
    }
  }

  lemma FirstRunStartUnique(grid: seq<string>, width: nat, p: nat, s: nat, p': nat, s': nat)
    requires Rectangular(grid, width) && p == p'
    requires FirstRunStart(grid, width, p, s) && FirstRunStart(grid, width, p', s')
    ensures s == s'
  {
  }

  lemma RunEndUnique(grid: seq<string>, width: nat, s: nat, e: nat, s': nat, e': nat)
    requires Rectangular(grid, width) && s == s'
    requires RunEnd(grid, width, s, e) && RunEnd(grid, width, s', e')
    ensures e == e'
  {
  }

  /** Two range lists of one grid that agree on where range `k` is
      searched for agree on range `k`. */
  lemma RangeDetermined(grid: seq<string>, width: nat, rs: seq<ColRange>, ss: seq<ColRange>, k: nat)
    requires Rectangular(grid, width) && ProblemRanges(grid, width, rs) && ProblemRanges(grid, width, ss)
    requires k < |rs| && k < |ss| && Before(rs, k) == Before(ss, k)
    ensures rs[k] == ss[k]
  {
    RangeIsRun(grid, width, rs, k);
    RangeIsRun(grid, width, ss, k);
    FirstRunStartUnique(grid, width, Before(rs, k), rs[k].start, Before(ss, k), ss[k].start);
    RunEndUnique(grid, width, rs[k].start, rs[k].end, ss[k].start, ss[k].end);
  }

  /** The first `k` ranges of two range lists of one grid agree. */
  lemma {:induction false} RangesPrefix(grid: seq<string>, width: nat, rs: seq<ColRange>, ss: seq<ColRange>, k: nat)
    requires Rectangular(grid, width) && ProblemRanges(grid, width, rs) && ProblemRanges(grid, width, ss)
    requires k <= |rs| && k <= |ss|
    ensures forall i :: 0 <= i < k ==> rs[i] == ss[i]
    ensures Before(rs, k) == Before(ss, k)
  {
    if k > 0 {
      RangesPrefix(grid, width, rs, ss, k - 1);
      RangeDetermined(grid, width, rs, ss, k - 1);
    }
  }

  /** A grid has one list of problem ranges: the maximal runs of
      non-separator columns, from left to right. */
  lemma ProblemRangesUnique(grid: seq<string>, width: nat, rs: seq<ColRange>, ss: seq<ColRange>)
    requires Rectangular(grid, width) && ProblemRanges(grid, width, rs) && ProblemRanges(grid, width, ss)
    ensures rs == ss
  {
    var m := if |rs| < |ss| then |rs| else |ss|;
    RangesPrefix(grid, width, rs, ss, m);
    RangesAfter(grid, width, rs, m);
    RangesAfter(grid, width, ss, m);
    assert |rs| == |ss|;
  }

  /** `ws` is the worksheet of `input`: its rows are the lines padded to
      the longest, the operator row is the last, and its problems are the
      ranges between blank columns, each with the operator found under it. */
  ghost predicate ParsedFrom(ws: Worksheet, input: string) {
    var lines := Lines(input);
    && |ws.grid| == |lines| > 0 && ws.opRow == |lines| - 1
    && Rectangular(ws.grid, MaxLen(lines))
    && (forall r :: 0 <= r < |lines| ==> ws.grid[r] == Pad(lines[r], MaxLen(lines)))
    && (exists ranges :: ProblemRanges(ws.grid, MaxLen(lines), ranges)
          && BuildProblems(ws.grid[ws.opRow], ranges) == Ok(ws.problems))
  }

  /** The lines padded with spaces to the longest. */
  function Grid(lines: seq<string>): (grid: seq<string>)
    ensures |grid| == |lines| && Rectangular(grid, MaxLen(lines))
    ensures forall r :: 0 <= r < |lines| ==> grid[r] == Pad(lines[r], MaxLen(lines))
  {
    seq(|lines|, r requires 0 <= r < |lines| => Pad(lines[r], MaxLen(lines)))
  }

  /** The worksheet of the lines, given the problem ranges of their grid. */
  function Sheet(lines: seq<string>, ranges: seq<ColRange>): (res: Result<Worksheet>)
    requires |lines| > 0 && ProblemRanges(Grid(lines), MaxLen(lines), ranges)
    ensures res.Ok? ==> Fits(res.value)
  {
    var grid := Grid(lines);
    var problems :- BuildProblems(grid[|lines| - 1], ranges);
    assert forall k :: 0 <= k < |problems| ==> problems[k].cols == ranges[k];
    Ok(Worksheet(grid, |lines| - 1, problems))
  }

  /** A worksheet parsed from the input is the one its problem ranges
      give. */
  lemma SheetOfParsed(input: string, ranges: seq<ColRange>, ws: Worksheet)
    requires |Lines(input)| > 0 && ProblemRanges(Grid(Lines(input)), MaxLen(Lines(input)), ranges)
    requires ParsedFrom(ws, input)
    ensures Sheet(Lines(input), ranges) == Ok(ws)
  {
    var lines := Lines(input);
    assert ws.grid == Grid(lines);
    var rs :| ProblemRanges(ws.grid, MaxLen(lines), rs) && BuildProblems(ws.grid[ws.opRow], rs) == Ok(ws.problems);
    ProblemRangesUnique(ws.grid, MaxLen(lines), ranges, rs);
  }

  /** The worksheet the problem ranges give is parsed from the input. */
  lemma SheetParsed(input: string, ranges: seq<ColRange>)
    requires |Lines(input)| > 0 && ProblemRanges(Grid(Lines(input)), MaxLen(Lines(input)), ranges)
    ensures Sheet(Lines(input), ranges).Ok? ==> ParsedFrom(Sheet(Lines(input), ranges).value, input)
  {
    var sheet := Sheet(Lines(input), ranges);
    if sheet.Ok? {
      var ws := sheet.value;
      assert ws.grid == Grid(Lines(input));
      assert ProblemRanges(ws.grid, MaxLen(Lines(input)), ranges);
      assert BuildProblems(ws.grid[ws.opRow], ranges) == Ok(ws.problems);
    }
  }

  /** The problem ranges of the input's grid are unique, and so is the
      worksheet it parses to: the one they give. */
  lemma SheetDetermined(input: string, ranges: seq<ColRange>)
    requires |Lines(input)| > 0 && ProblemRanges(Grid(Lines(input)), MaxLen(Lines(input)), ranges)
    ensures forall rs :: ProblemRanges(Grid(Lines(input)), MaxLen(Lines(input)), rs) ==> rs == ranges
    ensures Sheet(Lines(input), ranges).Ok? ==> ParsedFrom(Sheet(Lines(input), ranges).value, input)
    ensures forall ws :: ParsedFrom(ws, input) ==> Sheet(Lines(input), ranges) == Ok(ws)
  {
    var lines := Lines(input);
    SheetParsed(input, ranges);
    forall rs | ProblemRanges(Grid(lines), MaxLen(lines), rs)
      ensures rs == ranges
    {
      ProblemRangesUnique(Grid(lines), MaxLen(lines), rs, ranges);
    }
    forall ws | ParsedFrom(ws, input)
      ensures Sheet(lines, ranges) == Ok(ws)
    {
      SheetOfParsed(input, ranges, ws);
    }
  }

  /** `Worksheet::parse`: pad the lines to the longest, take the last as
      the operator row, find the problems. No line at all makes
      `height - 1` underflow. The worksheet is the only one the input
      parses to, and the error is the one its problem ranges give. */
  method ParseWorksheet(input: string) returns (res: Result<Worksheet>)
    ensures |Lines(input)| == 0 ==> res == Err(Underflow)
    ensures |Lines(input)| > 0 ==> exists ranges :: ProblemRanges(Grid(Lines(input)), MaxLen(Lines(input)), ranges)
    ensures forall ranges :: |Lines(input)| > 0 && ProblemRanges(Grid(Lines(input)), MaxLen(Lines(input)), ranges) ==>
      res == Sheet(Lines(input), ranges)
    ensures res.Ok? ==> ParsedFrom(res.value, input)
    ensures forall ws :: ParsedFrom(ws, input) ==> res == Ok(ws)
  {
    var lines := Lines(input);
    if |lines| == 0 {
      return Err(Underflow);
    }
    var width := MaxLen(lines);
    var grid := Grid(lines);
    var ranges := FindProblemRanges(grid, width);
    SheetDetermined(input, ranges);
    var problems := BuildProblems(grid[|lines| - 1], ranges);
    if problems.Err? {
      res := Err(problems.reason);
    } else {
      res := Ok(Worksheet(grid, |lines| - 1, problems.value));
    }
    assert res == Sheet(lines, ranges);
  }

  // ================================================================ reading numbers

  /** The digits of column `col` in rows `0..rows`, top to bottom. */
  function ColumnDigits(grid: seq<string>, rows: nat, col: nat): (ds: string)
    requires rows <= |grid| && forall r :: 0 <= r < |grid| ==> col < |grid[r]|
    ensures |ds| <= rows && AllDigits(ds)
  {
    if rows == 0 then []
    else
      var c := grid[rows - 1][col];
      ColumnDigits(grid, rows - 1, col) + (if IsDigit(c) then [c] else [])
  }

  /** There are no digits exactly when no row above holds one. */
  lemma {:induction false} ColumnDigitsEmpty(grid: seq<string>, rows: nat, col: nat)
    requires rows <= |grid| && forall r :: 0 <= r < |grid| ==> col < |grid[r]|
    ensures |ColumnDigits(grid, rows, col)| == 0 <==> forall r :: 0 <= r < rows ==> !IsDigit(grid[r][col])
  {
    if rows > 0 {
      ColumnDigitsEmpty(grid, rows - 1, col);
    }
  }

  /** `read_number_from_column`: the digits above the operator row read as
      one decimal number; a column without digits does not parse. */
  function ReadNumber(ws: Worksheet, col: nat): (res: Result<int>)
    requires ws.opRow <= |ws.grid| && forall r :: 0 <= r < |ws.grid| ==> col < |ws.grid[r]|
  {
    var ds := ColumnDigits(ws.grid, ws.opRow, col);
    if |ds| == 0 then Err(NotANumber) else Ok(DigitsValue(ds))
  }

  /** Reading a column is `parse::<i128>()` of its digits, with the
      `expect` failing where that parse fails. */
  lemma ReadNumberParses(ws: Worksheet, col: nat)
    requires ws.opRow <= |ws.grid| && forall r :: 0 <= r < |ws.grid| ==> col < |ws.grid[r]|
    ensures ReadNumber(ws, col) ==
      match ParseInt(ColumnDigits(ws.grid, ws.opRow, col))
      case Some(v) => Ok(v)
      case None => Err(NotANumber)
  {
    var ds := ColumnDigits(ws.grid, ws.opRow, col);
    assert |ds| > 0 ==> ParseNat(ds) == Some(DigitsValue(ds));
  }

  /** A column reads as a number exactly when it holds a digit above the
      operator row, and the number is its digits read top to bottom. */
  lemma ReadNumberDigits(ws: Worksheet, col: nat)
    requires ws.opRow <= |ws.grid| && forall r :: 0 <= r < |ws.grid| ==> col < |ws.grid[r]|
    ensures ReadNumber(ws, col).Ok? <==> exists r :: 0 <= r < ws.opRow && IsDigit(ws.grid[r][col])
    ensures ReadNumber(ws, col).Ok? ==> ReadNumber(ws, col).value == DigitsValue(ColumnDigits(ws.grid, ws.opRow, col))
  {
    ColumnDigitsEmpty(ws.grid, ws.opRow, col);
  }

  /** The reading of each column of the range, from the right. */
  function ColumnReads(ws: Worksheet, cols: ColRange): (rs: seq<Result<int>>)
    requires cols.start <= cols.end && ws.opRow <= |ws.grid| && forall r :: 0 <= r < |ws.grid| ==> cols.end <= |ws.grid[r]|
    ensures |rs| == cols.end - cols.start
    ensures forall i :: 0 <= i < |rs| ==> rs[i] == ReadNumber(ws, cols.end - 1 - i)
  {
    seq(cols.end - cols.start, i requires 0 <= i < cols.end - cols.start => ReadNumber(ws, cols.end - 1 - i))
  }

  /** `read_cephalopod_numbers`: one number per column of the range, from
      the rightmost column to the leftmost. */
  function ReadNumbers(ws: Worksheet, cols: ColRange): (res: Result<seq<int>>)
    requires cols.start <= cols.end && ws.opRow <= |ws.grid| && forall r :: 0 <= r < |ws.grid| ==> cols.end <= |ws.grid[r]|
    ensures res.Ok? ==> |res.value| == cols.end - cols.start
  {
    Collect(ColumnReads(ws, cols))
  }

  /** The numbers of a range are read exactly when each of its columns
      reads as a number. */
  lemma ReadNumbersOk(ws: Worksheet, cols: ColRange)
    requires cols.start <= cols.end && ws.opRow <= |ws.grid| && forall r :: 0 <= r < |ws.grid| ==> cols.end <= |ws.grid[r]|
    ensures ReadNumbers(ws, cols).Ok? <==> forall c :: cols.start <= c < cols.end ==> ReadNumber(ws, c).Ok?
  {
    var rs := ColumnReads(ws, cols);
    CollectOk(rs);
    if ReadNumbers(ws, cols).Ok? {
      forall c | cols.start <= c < cols.end
        ensures ReadNumber(ws, c).Ok?
      {
        var i := cols.end - 1 - c;
        assert rs[i].Ok?;
      }
    } else {
      var i :| 0 <= i < |rs| && !rs[i].Ok?;
      var c := cols.end - 1 - i;
      assert !ReadNumber(ws, c).Ok?;
    }
  }

  /** The `i`-th number read is the number of the `i`-th column from the
      right. */
  lemma ReadNumbersRightToLeft(ws: Worksheet, cols: ColRange)
    requires cols.start <= cols.end && ws.opRow <= |ws.grid| && forall r :: 0 <= r < |ws.grid| ==> cols.end <= |ws.grid[r]|
    requires ReadNumbers(ws, cols).Ok?
    ensures forall i :: 0 <= i < cols.end - cols.start ==> ReadNumber(ws, cols.end - 1 - i) == Ok(ReadNumbers(ws, cols).value[i])
  {
    CollectOk(ColumnReads(ws, cols));
  }

  /** The worksheet's grid is wide enough for every problem. */
  predicate Fits(ws: Worksheet) {
    && ws.opRow <= |ws.grid|
    && (forall k :: 0 <= k < |ws.problems| ==> ws.problems[k].cols.start <= ws.problems[k].cols.end)
    && forall k, r :: 0 <= k < |ws.problems| && 0 <= r < |ws.grid| ==> ws.problems[k].cols.end <= |ws.grid[r]|
  }

  /** `evaluate_problem`. */
  function EvaluateProblem(ws: Worksheet, p: Problem): Result<int>
    requires p.cols.start <= p.cols.end && ws.opRow <= |ws.grid| && forall r :: 0 <= r < |ws.grid| ==> p.cols.end <= |ws.grid[r]|
  {
    var values :- ReadNumbers(ws, p.cols);
    Ok(Eval(p.op, values))
  }

  /** `solve`: the sum of the problems from the `k`-th on. */
  function SolveFrom(ws: Worksheet, k: nat): Result<int>
    requires Fits(ws)
    decreases |ws.problems| - k
  {
    if k >= |ws.problems| then Ok(0)
    else
      var v :- EvaluateProblem(ws, ws.problems[k]);
      var rest :- SolveFrom(ws, k + 1);
      Ok(v + rest)
  }

  /** The sum of the problems is read exactly when every problem is. */
  lemma {:induction false} SolveFromOk(ws: Worksheet, k: nat)
    requires Fits(ws)
    ensures SolveFrom(ws, k).Ok? <==> forall m :: k <= m < |ws.problems| ==> EvaluateProblem(ws, ws.problems[m]).Ok?
    decreases |ws.problems| - k
  {
    if k < |ws.problems| {
      SolveFromOk(ws, k + 1);
      var e, rest := EvaluateProblem(ws, ws.problems[k]), SolveFrom(ws, k + 1);
      assert SolveFrom(ws, k).Ok? <==> e.Ok? && rest.Ok?;
    }
  }

  /** Reading a problem's columns right to left, as the cephalopods do,
      gives the same answer as reading them left to right: sums and
      products do not depend on the order of their terms. */
  lemma EvalOrderFree(op: Op, values: seq<int>)
    ensures Eval(op, Reverse(values)) == Eval(op, values)
  {
    ReverseFolds(values);
  }

  /** The answer the lines give, given the problem ranges of their grid. */
  function SheetAnswer(lines: seq<string>, ranges: seq<ColRange>): Result<int>
    requires |lines| > 0 && ProblemRanges(Grid(lines), MaxLen(lines), ranges)
  {
    var ws :- Sheet(lines, ranges);
    SolveFrom(ws, 0)
  }

  /** The answer the problem ranges give exists exactly when the input
      parses to a worksheet whose every problem evaluates, and is then
      that worksheet's sum. */
  lemma SheetAnswerMeaning(input: string, ranges: seq<ColRange>)
    requires |Lines(input)| > 0 && ProblemRanges(Grid(Lines(input)), MaxLen(Lines(input)), ranges)
    ensures SheetAnswer(Lines(input), ranges).Ok? <==>
      exists ws :: ParsedFrom(ws, input) && Fits(ws) &&
                   (forall m :: 0 <= m < |ws.problems| ==> EvaluateProblem(ws, ws.problems[m]).Ok?)
    ensures SheetAnswer(Lines(input), ranges).Ok? ==>
      exists ws :: ParsedFrom(ws, input) && Fits(ws) && SolveFrom(ws, 0) == SheetAnswer(Lines(input), ranges)
  {
    var sheet := Sheet(Lines(input), ranges);
    SheetDetermined(input, ranges);
    if sheet.Ok? {
      SolveFromOk(sheet.value, 0);
    }
  }

  /** `Day06::second`: the answer is the one the grid's problem ranges
      give, and there is one exactly when the input parses to a worksheet
      whose every problem evaluates. */
  method SecondAnswer(input: string) returns (res: Result<int>)
    ensures |Lines(input)| == 0 ==> res == Err(Underflow)
    ensures |Lines(input)| > 0 ==> exists ranges :: ProblemRanges(Grid(Lines(input)), MaxLen(Lines(input)), ranges)
    ensures forall ranges :: |Lines(input)| > 0 && ProblemRanges(Grid(Lines(input)), MaxLen(Lines(input)), ranges) ==>
      res == SheetAnswer(Lines(input), ranges)
    ensures res.Ok? <==> exists ws :: ParsedFrom(ws, input) && Fits(ws) &&
                                      (forall m :: 0 <= m < |ws.problems| ==> EvaluateProblem(ws, ws.problems[m]).Ok?)
    ensures res.Ok? ==> exists ws :: ParsedFrom(ws, input) && Fits(ws) && SolveFrom(ws, 0) == res
  {
    var parsed := ParseWorksheet(input);
    if parsed.Err? {
      res := Err(parsed.reason);
    } else {
      res := SolveFrom(parsed.value, 0);
    }
    if |Lines(input)| > 0 {
      ghost var ranges :| ProblemRanges(Grid(Lines(input)), MaxLen(Lines(input)), ranges);
      assert res == SheetAnswer(Lines(input), ranges);
      SheetAnswerMeaning(input, ranges);
    }
  }
}

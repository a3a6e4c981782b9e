/** Day 6: a worksheet of arithmetic problems.  Part A reads it row-wise:
    the i-th number of every number line belongs to problem i, and the
    operator line holds one operator per problem.  Part B reads the grid
    column by column from the right: each column is one number written top
    to bottom, and an operator at the bottom closes a problem.  The answer
    is the sum of all problem results. */
module Day6 {
  import opened Wrappers
  import opened Text
  import opened Grid
  import opened RustInt

  const STAR: byte := 42  // '*'
  const UNWRAP_ERR := "called `Result::unwrap()` on an `Err` value"

  /** What an operator token means: the `match` of both parts. */
  datatype Op = Add | Mul | Other

  function WordOp(w: Bytes): Op
  {
    if w == [PLUS] then Add else if w == [STAR] then Mul else Other
  }

  function ByteOp(b: byte): Op
  {
    if b == PLUS then Add else if b == STAR then Mul else Other
  }

  function WordOps(ws: seq<Bytes>): (ops: seq<Op>)
    ensures |ops| == |ws| && forall k :: 0 <= k < |ws| ==> ops[k] == WordOp(ws[k])
  {
    seq(|ws|, k requires 0 <= k < |ws| => WordOp(ws[k]))
  }

  function ByteOps(bs: seq<byte>): (ops: seq<Op>)
    ensures |ops| == |bs| && forall k :: 0 <= k < |bs| ==> ops[k] == ByteOp(bs[k])
  {
    seq(|bs|, k requires 0 <= k < |bs| => ByteOp(bs[k]))
  }

  /** `iter().sum()` and `iter().product()`. */
  function Sum(ns: seq<int>): int
  {
    if ns == [] then 0 else Sum(ns[..|ns| - 1]) + ns[|ns| - 1]
  }

  function Product(ns: seq<int>): int
  {
    if ns == [] then 1 else Product(ns[..|ns| - 1]) * ns[|ns| - 1]
  }

  /** One problem's result; an unknown operator contributes 0. */
  function Apply(op: Op, ns: seq<int>): int
  {
    match op
    case Add => Sum(ns)
    case Mul => Product(ns)
    case Other => 0
  }

  function Min(a: nat, b: nat): nat { if a <= b then a else b }

  /** The zipped total: one term per (operator, numbers) pair, up to the
      shorter of the two lists. */
  function Total(ops: seq<Op>, groups: seq<seq<int>>): int
    decreases |ops|
  {
    var n := Min(|ops|, |groups|);
    if n == 0 then 0 else Total(ops[..n - 1], groups[..n - 1]) + Apply(ops[n - 1], groups[n - 1])
  }

  /** `zip` stops at the shorter list: extra operators or extra number
      groups are ignored. */
  lemma TotalZip(ops: seq<Op>, groups: seq<seq<int>>)
    ensures Total(ops, groups) == Total(ops[..Min(|ops|, |groups|)], groups[..Min(|ops|, |groups|)])
  {
    var n := Min(|ops|, |groups|);
    if n > 0 {
      assert ops[..n][..n - 1] == ops[..n - 1];
      assert groups[..n][..n - 1] == groups[..n - 1];
    }
  }

  /** Adding one matched pair adds its result. */
  lemma TotalSnoc(ops: seq<Op>, groups: seq<seq<int>>, op: Op, g: seq<int>)
    requires |ops| == |groups|
    ensures Total(ops + [op], groups + [g]) == Total(ops, groups) + Apply(op, g)
  {
    assert (ops + [op])[..|ops|] == ops;
    assert (groups + [g])[..|groups|] == groups;
  }

  /** A worksheet whose operators are all unknown totals 0. */
  lemma {:induction false} TotalOfUnknownOps(ops: seq<Op>, groups: seq<seq<int>>)
    requires forall k :: 0 <= k < |ops| ==> ops[k] == Other
    ensures Total(ops, groups) == 0
    decreases |ops|
  {
    var n := Min(|ops|, |groups|);
    if n > 0 {
      TotalOfUnknownOps(ops[..n - 1], groups[..n - 1]);
    }
  }

  lemma TotalStep(ops: seq<Op>, groups: seq<seq<int>>, k: nat)
    requires k < |ops| && k < |groups|
    ensures Total(ops[..k + 1], groups[..k + 1]) == Total(ops[..k], groups[..k]) + Apply(ops[k], groups[k])
  {
    assert ops[..k + 1][..k] == ops[..k];
    assert groups[..k + 1][..k] == groups[..k];
  }

  /** The final loop of both parts. */
  method Evaluate(ops: seq<Op>, groups: seq<seq<int>>) returns (total: int)
    ensures total == Total(ops, groups)
  {
    var n := Min(|ops|, |groups|);
    total := 0;
    for k := 0 to n
      invariant total == Total(ops[..k], groups[..k])
    {
      TotalStep(ops, groups, k);
      total := total + Apply(ops[k], groups[k]);
    }
    TotalZip(ops, groups);
  }

  // ---------------------------------------------------------------- part A

  /** The operator line is recognised by a `'*'` alone (the source tests
      for `'*'` twice); a line with only `'+'` is read as numbers. */
  predicate IsOperatorLine(line: Bytes) { STAR in line }

  /** `num.parse::<i64>().unwrap()`. */
  function ParseWord(w: Bytes): (r: Result<int>)
    ensures r.Ok? <==> ParseSigned(w).Some? && I64_MIN <= ParseSigned(w).value <= I64_MAX
    ensures r.Ok? ==> r.value == ParseSigned(w).value
  {
    match ParseSignedWithin(w, I64_MIN, I64_MAX)
    case Some(v) => Ok(v)
    case None => Panic(UNWRAP_ERR)
  }

  /** The whitespace-separated numbers of a line. */
  function ParseLine(line: Bytes): Result<seq<int>>
  {
    MapAll(ParseWord, SplitWhitespace(line))
  }

  /** `inputs.push(vec![x])` when column `i` does not exist yet, otherwise
      `inputs[i].push(x)`. */
  function PushAt(cols: seq<seq<int>>, i: nat, x: int): seq<seq<int>>
  {
    if |cols| < i + 1 then cols + [[x]] else cols[i := cols[i] + [x]]
  }

  /** The inner `enumerate` loop over one line's numbers. */
  function AddRow(cols: seq<seq<int>>, nums: seq<int>): seq<seq<int>>
  {
    if nums == [] then cols
    else PushAt(AddRow(cols, nums[..|nums| - 1]), |nums| - 1, nums[|nums| - 1])
  }

  function Max(a: nat, b: nat): nat { if a >= b then a else b }

  lemma {:induction false} AddRowLength(cols: seq<seq<int>>, nums: seq<int>)
    ensures |AddRow(cols, nums)| == Max(|cols|, |nums|)
    decreases |nums|
  {
    if nums != [] {
      AddRowLength(cols, nums[..|nums| - 1]);
    }
  }

  /** Adding a row extends column `i` by the row's i-th number, when the
      row has one; the columns past the old ones start with that number. */
  lemma {:induction false} AddRowAt(cols: seq<seq<int>>, nums: seq<int>, i: nat)
    requires i < Max(|cols|, |nums|)
    ensures |AddRow(cols, nums)| == Max(|cols|, |nums|)
    ensures AddRow(cols, nums)[i] == (if i < |cols| then cols[i] else []) + (if i < |nums| then [nums[i]] else [])
    decreases |nums|
  {
    AddRowLength(cols, nums);
    if nums != [] {
      var pre, j := nums[..|nums| - 1], |nums| - 1;
      AddRowLength(cols, pre);
      if i < Max(|cols|, j) {
        AddRowAt(cols, pre, i);
      }
      if i < j {
        assert pre[i] == nums[i];
      }
    }
  }

  /** The columns gathered from all number rows. */
  function Columns(rows: seq<seq<int>>): seq<seq<int>>
  {
    if rows == [] then [] else AddRow(Columns(rows[..|rows| - 1]), rows[|rows| - 1])
  }

  /** The reference reading of a column: the i-th number of every row that
      has one, top to bottom. */
  function Column(rows: seq<seq<int>>, i: nat): seq<int>
  {
    if rows == [] then []
    else
      var last := rows[|rows| - 1];
      Column(rows[..|rows| - 1], i) + (if i < |last| then [last[i]] else [])
  }

  /** The length of the longest row. */
  function Widest(rows: seq<seq<int>>): nat
  {
    if rows == [] then 0 else Max(Widest(rows[..|rows| - 1]), |rows[|rows| - 1]|)
  }

  lemma {:induction false} ColumnBeyond(rows: seq<seq<int>>, i: nat)
    requires i >= Widest(rows)
    ensures Column(rows, i) == []
    decreases |rows|
  {
    if rows != [] {
      ColumnBeyond(rows[..|rows| - 1], i);
    }
  }

  /** Part A's columns are exactly the reference columns: there is one per
      position up to the widest row, and column `i` lists the i-th numbers
      of the rows in order. */
  lemma {:induction false} ColumnsAreColumnwise(rows: seq<seq<int>>)
    ensures |Columns(rows)| == Widest(rows)
    ensures forall i :: 0 <= i < |Columns(rows)| ==> Columns(rows)[i] == Column(rows, i)
    decreases |rows|
  {
    if rows != [] {
      var pre, last := rows[..|rows| - 1], rows[|rows| - 1];
      ColumnsAreColumnwise(pre);
      AddRowLength(Columns(pre), last);
      forall i | 0 <= i < |Columns(rows)| ensures Columns(rows)[i] == Column(rows, i) {
        AddRowAt(Columns(pre), last, i);
        if i >= |Columns(pre)| {
          ColumnBeyond(pre, i);
        }
      }
    }
  }

  /** What the line loop of `part_a` has gathered. */
  datatype Sheet = Sheet(operations: seq<Bytes>, inputs: seq<seq<int>>)

  /** One line of the loop: an operator line replaces the operators, any
      other line adds its numbers to the columns. */
  function SheetStep(s: Sheet, line: Bytes): Result<Sheet>
  {
    if IsOperatorLine(line) then Ok(Sheet(SplitWhitespace(line), s.inputs))
    else
      match ParseLine(line)
      case Panic(why) => Panic(why)
      case Ok(nums) => Ok(Sheet(s.operations, AddRow(s.inputs, nums)))
  }

  function Gather(lines: seq<Bytes>): Result<Sheet>
  {
    if lines == [] then Ok(Sheet([], []))
    else
      match Gather(lines[..|lines| - 1])
      case Panic(why) => Panic(why)
      case Ok(s) => SheetStep(s, lines[|lines| - 1])
  }

  /** The numbers of every line that is not an operator line, in order;
      panics at the first word that is not an `i64`. */
  function NumberRows(lines: seq<Bytes>): Result<seq<seq<int>>>
  {
    if lines == [] then Ok([])
    else
      var last := lines[|lines| - 1];
      match NumberRows(lines[..|lines| - 1])
      case Panic(why) => Panic(why)
      case Ok(rows) =>
        if IsOperatorLine(last) then Ok(rows)
        else
          match ParseLine(last)
          case Panic(why) => Panic(why)
          case Ok(nums) => Ok(rows + [nums])
  }

  /** The words of the last operator line, or none. */
  function OperatorWords(lines: seq<Bytes>): seq<Bytes>
  {
    if lines == [] then []
    else
      var last := lines[|lines| - 1];
      if IsOperatorLine(last) then SplitWhitespace(last) else OperatorWords(lines[..|lines| - 1])
  }

  /** Gathering panics iff some number line holds a word that is not an
      `i64`; otherwise the operators are the last operator line's words and
      the inputs are the columns of the number lines. */
  predicate GatherAgrees(lines: seq<Bytes>)
  {
    && (Gather(lines).Ok? <==> NumberRows(lines).Ok?)
    && (Gather(lines).Ok? ==>
          Gather(lines).value.operations == OperatorWords(lines) &&
          Gather(lines).value.inputs == Columns(NumberRows(lines).value))
  }

  lemma {:induction false} GatherMeaning(lines: seq<Bytes>)
    ensures GatherAgrees(lines)
    decreases |lines|
  {
    if lines != [] {
      var pre, last := lines[..|lines| - 1], lines[|lines| - 1];
      GatherMeaning(pre);
      if IsOperatorLine(last) {
        GatherOperatorLine(pre, last);
      } else {
        GatherNumberLine(pre, last);
      }
      assert pre + [last] == lines;
    }
  }

  lemma GatherOperatorLine(pre: seq<Bytes>, last: Bytes)
    requires GatherAgrees(pre) && IsOperatorLine(last)
    ensures GatherAgrees(pre + [last])
  {
    var lines := pre + [last];
    assert lines[..|lines| - 1] == pre;
  }

  lemma GatherNumberLine(pre: seq<Bytes>, last: Bytes)
    requires GatherAgrees(pre) && !IsOperatorLine(last)
    ensures GatherAgrees(pre + [last])
  {
    var lines := pre + [last];
    assert lines[..|lines| - 1] == pre;
    var rows := NumberRows(lines);
    if rows.Ok? {
      var pr := NumberRows(pre).value;
      assert rows.value == pr + [ParseLine(last).value];
      assert rows.value[..|rows.value| - 1] == pr;
    }
  }

  lemma {:induction false} GatherPanicSticks(lines: seq<Bytes>, i: nat)
    requires i <= |lines| && Gather(lines[..i]).Panic?
    ensures Gather(lines).Panic?
    decreases |lines| - i
  {
    if i < |lines| {
      assert lines[..|lines| - 1][..i] == lines[..i];
      GatherPanicSticks(lines[..|lines| - 1], i);
    } else {
      assert lines[..i] == lines;
    }
  }

  /** `part_a` from the worksheet's lines. */
  function PartASpec(lines: seq<Bytes>): Result<int>
  {
    match Gather(lines)
    case Panic(why) => Panic(why)
    case Ok(s) => Ok(Total(WordOps(s.operations), s.inputs))
  }

  lemma AddWordStep(inputs: seq<seq<int>>, words: seq<Bytes>, i: nat)
    requires i < |words| && MapAll(ParseWord, words[..i]).Ok?
    ensures MapAll(ParseWord, words[..i + 1]).Ok? <==> ParseWord(words[i]).Ok?
    ensures ParseWord(words[i]).Ok? ==>
      AddRow(inputs, MapAll(ParseWord, words[..i + 1]).value) ==
      PushAt(AddRow(inputs, MapAll(ParseWord, words[..i]).value), i, ParseWord(words[i]).value)
  {
    assert words[..i + 1] == words[..i] + [words[i]];
    MapAllSnoc(ParseWord, words[..i], words[i]);
    if ParseWord(words[i]).Ok? {
      var nums := MapAll(ParseWord, words[..i + 1]).value;
      assert nums[..i] == MapAll(ParseWord, words[..i]).value;
    }
  }

  /** The `enumerate` loop of one number line. */
  method AddLine(inputs: seq<seq<int>>, line: Bytes) returns (r: Result<seq<seq<int>>>)
    ensures r.Ok? <==> ParseLine(line).Ok?
    ensures r.Ok? ==> r.value == AddRow(inputs, ParseLine(line).value)
  {
    var words := SplitWhitespace(line);
    var cols := inputs;
    for i := 0 to |words|
      invariant MapAll(ParseWord, words[..i]).Ok?
      invariant cols == AddRow(inputs, MapAll(ParseWord, words[..i]).value)
    {
      var num := ParseWord(words[i]);
      AddWordStep(inputs, words, i);
      if num.Panic? {
        assert ParseWord(words[i]).Panic?;
        return Panic(num.why);
      }
      cols := PushAt(cols, i, num.value);
    }
    assert words[..|words|] == words;
    r := Ok(cols);
  }

  /** One more line of the gathering loop. */
  lemma GatherNext(lines: seq<Bytes>, i: nat, s: Sheet)
    requires i < |lines| && Gather(lines[..i]).Ok? && Gather(lines[..i]).value == s
    ensures IsOperatorLine(lines[i]) ==>
      Gather(lines[..i + 1]).Ok? && Gather(lines[..i + 1]).value == Sheet(SplitWhitespace(lines[i]), s.inputs)
    ensures !IsOperatorLine(lines[i]) ==>
      (Gather(lines[..i + 1]).Ok? <==> ParseLine(lines[i]).Ok?) &&
      (Gather(lines[..i + 1]).Ok? ==> Gather(lines[..i + 1]).value == Sheet(s.operations, AddRow(s.inputs, ParseLine(lines[i]).value)))
  {
    assert lines[..i + 1][..i] == lines[..i];
  }

  /** `part_a`: gather operators and columns line by line, then total. */
  method PartA(lines: seq<Bytes>) returns (r: Result<int>)
    ensures r.Panic? <==> PartASpec(lines).Panic?
    ensures r.Ok? ==> r.value == PartASpec(lines).value
  {
    var inputs: seq<seq<int>> := [];
    var operations: seq<Bytes> := [];
    for i := 0 to |lines|
      invariant Gather(lines[..i]).Ok? && Gather(lines[..i]).value == Sheet(operations, inputs)
    {
      var line := lines[i];
      GatherNext(lines, i, Sheet(operations, inputs));
      if IsOperatorLine(line) {
        operations := SplitWhitespace(line);
      } else {
        var added := AddLine(inputs, line);
        if added.Panic? {
          GatherPanicSticks(lines, i + 1);
          return Panic(added.why);
        }
        inputs := added.value;
      }
    }
    assert lines[..|lines|] == lines;
    var total := Evaluate(WordOps(operations), inputs);
    assert PartASpec(lines).value == Total(WordOps(operations), inputs);
    r := Ok(total);
  }

  /** The sample worksheet's problems: 123*45*6 + (328+64+98) + 51*387*215
      + (64+23+314). */
  lemma SampleTotalA()
    ensures Total([Mul, Add, Mul, Add], [[123, 45, 6], [328, 64, 98], [51, 387, 215], [64, 23, 314]]) == 4277556
  {
    Total4([Mul, Add, Mul, Add], [[123, 45, 6], [328, 64, 98], [51, 387, 215], [64, 23, 314]]);
    Three(123, 45, 6);
    Three(328, 64, 98);
    Three(51, 387, 215);
    Three(64, 23, 314);
  }

  lemma Three(a: int, b: int, c: int)
    ensures Sum([a, b, c]) == a + b + c && Product([a, b, c]) == a * b * c
  {
    var one, two, three := [a], [a, b], [a, b, c];
    assert one[..0] == [];
    assert Sum(one) == a && Product(one) == a;
    assert two[..1] == one;
    assert Sum(two) == a + b && Product(two) == a * b;
    assert three[..2] == two;
  }

  /** A four-problem worksheet totals its four results. */
  lemma Total4(ops: seq<Op>, groups: seq<seq<int>>)
    requires |ops| == 4 && |groups| == 4
    ensures Total(ops, groups) == Apply(ops[0], groups[0]) + Apply(ops[1], groups[1]) + Apply(ops[2], groups[2]) + Apply(ops[3], groups[3])
  {
    assert Total(ops[..0], groups[..0]) == 0;
    TotalStep(ops, groups, 0);
    TotalStep(ops, groups, 1);
    TotalStep(ops, groups, 2);
    TotalStep(ops, groups, 3);
    assert ops[..4] == ops && groups[..4] == groups;
  }

  // ---------------------------------------------------------------- part B

  /** The state of part B's column scan: the closed problems, their
      operators, the numbers of the open problem and the number being read. */
  datatype Scan = Scan(inputs: seq<seq<int>>, operations: seq<byte>, numbers: seq<int>, value: int)

  /** One cell: a digit extends the number, `'*'`/`'+'` closes the problem
      with the current number, and any other byte on the last row ends a
      non-zero number. */
  function CellStep(s: Scan, v: byte, lastRow: bool): Scan
  {
    if IsDigit(v) then s.(value := s.value * 10 + (v - ZERO))
    else if v == STAR || v == PLUS then
      Scan(s.inputs + [s.numbers + [s.value]], s.operations + [v], [], s.value)
    else if lastRow && s.value != 0 then s.(numbers := s.numbers + [s.value])
    else s
  }

  /** The first `n` cells of column `c`, top down. */
  function ScanRows(g: seq<seq<byte>>, rows: nat, cols: nat, c: nat, s: Scan, n: nat): Scan
    requires IsGrid(g, rows, cols) && c < cols && n <= rows
  {
    if n == 0 then s else CellStep(ScanRows(g, rows, cols, c, s, n - 1), g[n - 1][c], n - 1 == rows - 1)
  }

  /** The `n` rightmost columns, right to left, each starting from value 0. */
  function ScanColumns(g: seq<seq<byte>>, rows: nat, cols: nat, n: nat): Scan
    requires IsGrid(g, rows, cols) && n <= cols
  {
    if n == 0 then Scan([], [], [], 0)
    else ScanRows(g, rows, cols, cols - n, ScanColumns(g, rows, cols, n - 1).(value := 0), rows)
  }

  /** `part_b` on the worksheet grid. */
  function PartBSpec(g: seq<seq<byte>>, rows: nat, cols: nat): int
    requires IsGrid(g, rows, cols)
  {
    var s := ScanColumns(g, rows, cols, cols);
    Total(ByteOps(s.operations), s.inputs)
  }

  /** The shape the scan keeps: one operator per closed problem, every
      operator `'*'` or `'+'`, every closed problem non-empty, and zero
      never recorded except as the number that closes a problem. */
  predicate WellScanned(s: Scan)
  {
    && |s.operations| == |s.inputs|
    && (forall k :: 0 <= k < |s.operations| ==> s.operations[k] == STAR || s.operations[k] == PLUS)
    && (forall k :: 0 <= k < |s.numbers| ==> s.numbers[k] != 0)
    && (forall k :: 0 <= k < |s.inputs| ==> |s.inputs[k]| >= 1)
    && (forall k, j :: 0 <= k < |s.inputs| && 0 <= j < |s.inputs[k]| - 1 ==> s.inputs[k][j] != 0)
  }

  lemma CellStepWellScanned(s: Scan, v: byte, lastRow: bool)
    requires WellScanned(s)
    ensures WellScanned(CellStep(s, v, lastRow))
  {
    if !IsDigit(v) && (v == STAR || v == PLUS) {
      var t := CellStep(s, v, lastRow);
      assert t.inputs[|s.inputs|] == s.numbers + [s.value];
      forall k, j | 0 <= k < |t.inputs| && 0 <= j < |t.inputs[k]| - 1 ensures t.inputs[k][j] != 0 {
        if k < |s.inputs| { assert t.inputs[k] == s.inputs[k]; }
      }
    }
  }

  lemma {:induction false} ScanRowsWellScanned(g: seq<seq<byte>>, rows: nat, cols: nat, c: nat, s: Scan, n: nat)
    requires IsGrid(g, rows, cols) && c < cols && n <= rows && WellScanned(s)
    ensures WellScanned(ScanRows(g, rows, cols, c, s, n))
  {
    if n > 0 {
      ScanRowsWellScanned(g, rows, cols, c, s, n - 1);
      CellStepWellScanned(ScanRows(g, rows, cols, c, s, n - 1), g[n - 1][c], n - 1 == rows - 1);
    }
  }

  /** Every stage of part B's scan is well shaped, so the final `zip`
      pairs every operator with its problem. */
  lemma {:induction false} ScanColumnsWellScanned(g: seq<seq<byte>>, rows: nat, cols: nat, n: nat)
    requires IsGrid(g, rows, cols) && n <= cols
    ensures WellScanned(ScanColumns(g, rows, cols, n))
  {
    if n > 0 {
      ScanColumnsWellScanned(g, rows, cols, n - 1);
      var s := ScanColumns(g, rows, cols, n - 1);
      assert WellScanned(s.(value := 0));
      ScanRowsWellScanned(g, rows, cols, cols - n, s.(value := 0), rows);
    }
  }

  /** The bytes of column `c` in the first `n` rows, top down. */
  function ColumnBytes(g: seq<seq<byte>>, rows: nat, cols: nat, c: nat, n: nat): (col: Bytes)
    requires IsGrid(g, rows, cols) && c < cols && n <= rows
    ensures |col| == n
  {
    if n == 0 then [] else ColumnBytes(g, rows, cols, c, n - 1) + [g[n - 1][c]]
  }

  function Pow10(n: nat): nat { if n == 0 then 1 else 10 * Pow10(n - 1) }

  /** A run of digit cells down a column is read as one decimal number,
      most significant digit on top: `value*10 + digit` per cell. */
  lemma {:induction false} DigitsAccumulate(g: seq<seq<byte>>, rows: nat, cols: nat, c: nat, s: Scan, n: nat)
    requires IsGrid(g, rows, cols) && c < cols && n <= rows
    requires AllDigits(ColumnBytes(g, rows, cols, c, n))
    ensures ScanRows(g, rows, cols, c, s, n) == s.(value := s.value * Pow10(n) + DigitsValue(ColumnBytes(g, rows, cols, c, n)))
  {
    if n > 0 {
      var col := ColumnBytes(g, rows, cols, c, n);
      assert col[..n - 1] == ColumnBytes(g, rows, cols, c, n - 1);
      DigitsAccumulate(g, rows, cols, c, s, n - 1);
      assert IsDigit(col[n - 1]);
      var d := DigitsValue(ColumnBytes(g, rows, cols, c, n - 1));
      calc {
        (s.value * Pow10(n - 1) + d) * 10 + (col[n - 1] - ZERO);
        s.value * (Pow10(n - 1) * 10) + (d * 10 + (col[n - 1] - ZERO));
      }
    }
  }

  /** A separator column (no digit, no operator) starting from value 0
      changes nothing. */
  lemma {:induction false} BlankColumnNoop(g: seq<seq<byte>>, rows: nat, cols: nat, c: nat, s: Scan, n: nat)
    requires IsGrid(g, rows, cols) && c < cols && n <= rows && s.value == 0
    requires forall r :: 0 <= r < n ==> !IsDigit(g[r][c]) && g[r][c] != STAR && g[r][c] != PLUS
    ensures ScanRows(g, rows, cols, c, s, n) == s
  {
    if n > 0 {
      BlankColumnNoop(g, rows, cols, c, s, n - 1);
    }
  }

  /** The inner loop of `part_b` over one column. */
  method ScanColumn(a: array2<byte>, column: nat, s0: Scan) returns (s: Scan)
    requires column < a.Length1
    ensures s == ScanRows(Snapshot(a), a.Length0, a.Length1, column, s0, a.Length0)
  {
    var g := Snapshot(a);
    var inputs: seq<seq<int>>, operations: seq<byte> := s0.inputs, s0.operations;
    var currentNumbers: seq<int>, currentValue: int := s0.numbers, s0.value;
    for row := 0 to a.Length0
      invariant Scan(inputs, operations, currentNumbers, currentValue) == ScanRows(g, a.Length0, a.Length1, column, s0, row)
    {
      var value := a[row, column];
      if IsDigit(value) {
        currentValue := currentValue * 10 + (value - ZERO);
      } else if value == STAR || value == PLUS {
        operations := operations + [value];
        currentNumbers := currentNumbers + [currentValue];
        inputs := inputs + [currentNumbers];
        currentNumbers := [];
      } else if row == a.Length0 - 1 && currentValue != 0 {
        currentNumbers := currentNumbers + [currentValue];
      }
    }
    s := Scan(inputs, operations, currentNumbers, currentValue);
  }

  /** `part_b`: scan the columns right to left, then total. */
  method PartB(a: array2<byte>) returns (total: int)
    ensures total == PartBSpec(Snapshot(a), a.Length0, a.Length1)
  {
    var g := Snapshot(a);
    var s := Scan([], [], [], 0);
    for n := 0 to a.Length1
      invariant s == ScanColumns(g, a.Length0, a.Length1, n)
    {
      var column := a.Length1 - 1 - n;
      s := ScanColumn(a, column, s.(value := 0));
    }
    total := Evaluate(ByteOps(s.operations), s.inputs);
  }

  /** The sample worksheet read column-wise from the right: 4+431+623,
      175*581*32, 8+248+369 and 356*24*1. */
  lemma SampleTotalB()
    ensures Total([Add, Mul, Add, Mul], [[4, 431, 623], [175, 581, 32], [8, 248, 369], [356, 24, 1]]) == 3263827
  {
    Total4([Add, Mul, Add, Mul], [[4, 431, 623], [175, 581, 32], [8, 248, 369], [356, 24, 1]]);
    Three(4, 431, 623);
    Three(175, 581, 32);
    Three(8, 248, 369);
    Three(356, 24, 1);
  }
}

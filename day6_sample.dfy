/** Day 6's sample worksheet, four lines of fifteen bytes, run through the
    model of both parts: part A totals 4277556 and part B 3263827, the two
    answers the day's tests expect.  The sample input file is not part of
    this model; the four lines are the puzzle's published example. */
module Day6Sample {
  import opened Wrappers
  import opened Text
  import opened Grid
  import opened Day6
  import opened RustInt

  const Line0 := Ascii("123 328  51 64 ")
  const Line1 := Ascii(" 45 64  387 23 ")
  const Line2 := Ascii("  6 98  215 314")
  const Line3 := Ascii("*   +   *   +  ")

  const Sample: seq<Bytes> := [Line0, Line1, Line2, Line3]

  /** The scan of the `n` rightmost columns extends the scan of the `n - 1`
      rightmost by one column, its four cells top down. */
  lemma SampleColumn(n: nat)
    requires 1 <= n <= 15
    ensures IsGrid(Sample, 4, 15)
    ensures ScanColumns(Sample, 4, 15, n) ==
      var s := ScanColumns(Sample, 4, 15, n - 1).(value := 0);
      var c := 15 - n;
      CellStep(CellStep(CellStep(CellStep(s, Sample[0][c], false), Sample[1][c], false), Sample[2][c], false), Sample[3][c], true)
  {
    var g, c := Sample, 15 - n;
    var s := ScanColumns(g, 4, 15, n - 1).(value := 0);
    assert ScanRows(g, 4, 15, c, s, 1) == CellStep(s, g[0][c], false);
    assert ScanRows(g, 4, 15, c, s, 2) == CellStep(ScanRows(g, 4, 15, c, s, 1), g[1][c], false);
    assert ScanRows(g, 4, 15, c, s, 3) == CellStep(ScanRows(g, 4, 15, c, s, 2), g[2][c], false);
  }

  /** The scan after the `n` rightmost columns: problems closed, their
      operators, the numbers of the open problem, and the current value. */
  function Stage(n: nat): Scan
    requires n <= 15
  {
    if n == 0 then Scan([], [], [], 0)
    else if n == 1 then Scan([], [], [4], 4)
    else if n == 2 then Scan([], [], [4, 431], 431)
    else if n == 3 then Scan([[4, 431, 623]], [PLUS], [], 623)
    else if n == 4 then Scan([[4, 431, 623]], [PLUS], [], 0)
    else if n == 5 then Scan([[4, 431, 623]], [PLUS], [175], 175)
    else if n == 6 then Scan([[4, 431, 623]], [PLUS], [175, 581], 581)
    else if n == 7 then Scan([[4, 431, 623], [175, 581, 32]], [PLUS, STAR], [], 32)
    else if n == 8 then Scan([[4, 431, 623], [175, 581, 32]], [PLUS, STAR], [], 0)
    else if n == 9 then Scan([[4, 431, 623], [175, 581, 32]], [PLUS, STAR], [8], 8)
    else if n == 10 then Scan([[4, 431, 623], [175, 581, 32]], [PLUS, STAR], [8, 248], 248)
    else if n == 11 then Scan([[4, 431, 623], [175, 581, 32], [8, 248, 369]], [PLUS, STAR, PLUS], [], 369)
    else if n == 12 then Scan([[4, 431, 623], [175, 581, 32], [8, 248, 369]], [PLUS, STAR, PLUS], [], 0)
    else if n == 13 then Scan([[4, 431, 623], [175, 581, 32], [8, 248, 369]], [PLUS, STAR, PLUS], [356], 356)
    else if n == 14 then Scan([[4, 431, 623], [175, 581, 32], [8, 248, 369]], [PLUS, STAR, PLUS], [356, 24], 24)
    else Scan([[4, 431, 623], [175, 581, 32], [8, 248, 369], [356, 24, 1]], [PLUS, STAR, PLUS, STAR], [], 1)
  }

  /** Column 14. */
  lemma Column1()
    requires IsGrid(Sample, 4, 15) && ScanColumns(Sample, 4, 15, 0) == Stage(0)
    ensures ScanColumns(Sample, 4, 15, 1) == Stage(1)
  {
    SampleColumn(1);
  }

  /** Column 13. */
  lemma Column2()
    requires IsGrid(Sample, 4, 15) && ScanColumns(Sample, 4, 15, 1) == Stage(1)
    ensures ScanColumns(Sample, 4, 15, 2) == Stage(2)
  {
    SampleColumn(2);
  }

  /** Column 12: an operator closes the problem [4, 431, 623]. */
  lemma Column3()
    requires IsGrid(Sample, 4, 15) && ScanColumns(Sample, 4, 15, 2) == Stage(2)
    ensures ScanColumns(Sample, 4, 15, 3) == Stage(3)
  {
    SampleColumn(3);
    assert [4, 431] + [623] == [4, 431, 623];
  }

  /** Column 11. */
  lemma Column4()
    requires IsGrid(Sample, 4, 15) && ScanColumns(Sample, 4, 15, 3) == Stage(3)
    ensures ScanColumns(Sample, 4, 15, 4) == Stage(4)
  {
    SampleColumn(4);
  }

  /** Column 10. */
  lemma Column5()
    requires IsGrid(Sample, 4, 15) && ScanColumns(Sample, 4, 15, 4) == Stage(4)
    ensures ScanColumns(Sample, 4, 15, 5) == Stage(5)
  {
    SampleColumn(5);
  }

  /** Column 9. */
  lemma Column6()
    requires IsGrid(Sample, 4, 15) && ScanColumns(Sample, 4, 15, 5) == Stage(5)
    ensures ScanColumns(Sample, 4, 15, 6) == Stage(6)
  {
    SampleColumn(6);
  }

  /** Column 8: an operator closes the problem [175, 581, 32]. */
  lemma Column7()
    requires IsGrid(Sample, 4, 15) && ScanColumns(Sample, 4, 15, 6) == Stage(6)
    ensures ScanColumns(Sample, 4, 15, 7) == Stage(7)
  {
    SampleColumn(7);
    assert [175, 581] + [32] == [175, 581, 32];
  }

  /** Column 7. */
  lemma Column8()
    requires IsGrid(Sample, 4, 15) && ScanColumns(Sample, 4, 15, 7) == Stage(7)
    ensures ScanColumns(Sample, 4, 15, 8) == Stage(8)
  {
    SampleColumn(8);
  }

  /** Column 6. */
  lemma Column9()
    requires IsGrid(Sample, 4, 15) && ScanColumns(Sample, 4, 15, 8) == Stage(8)
    ensures ScanColumns(Sample, 4, 15, 9) == Stage(9)
  {
    SampleColumn(9);
  }

  /** Column 5. */
  lemma Column10()
    requires IsGrid(Sample, 4, 15) && ScanColumns(Sample, 4, 15, 9) == Stage(9)
    ensures ScanColumns(Sample, 4, 15, 10) == Stage(10)
  {
    SampleColumn(10);
  }

  /** Column 4: an operator closes the problem [8, 248, 369]. */
  lemma Column11()
    requires IsGrid(Sample, 4, 15) && ScanColumns(Sample, 4, 15, 10) == Stage(10)
    ensures ScanColumns(Sample, 4, 15, 11) == Stage(11)
  {
    SampleColumn(11);
    assert [8, 248] + [369] == [8, 248, 369];
  }

  /** Column 3. */
  lemma Column12()
    requires IsGrid(Sample, 4, 15) && ScanColumns(Sample, 4, 15, 11) == Stage(11)
    ensures ScanColumns(Sample, 4, 15, 12) == Stage(12)
  {
    SampleColumn(12);
  }

  /** Column 2. */
  lemma Column13()
    requires IsGrid(Sample, 4, 15) && ScanColumns(Sample, 4, 15, 12) == Stage(12)
    ensures ScanColumns(Sample, 4, 15, 13) == Stage(13)
  {
    SampleColumn(13);
  }

  /** Column 1. */
  lemma Column14()
    requires IsGrid(Sample, 4, 15) && ScanColumns(Sample, 4, 15, 13) == Stage(13)
    ensures ScanColumns(Sample, 4, 15, 14) == Stage(14)
  {
    SampleColumn(14);
  }

  /** Column 0: an operator closes the problem [356, 24, 1]. */
  lemma Column15()
    requires IsGrid(Sample, 4, 15) && ScanColumns(Sample, 4, 15, 14) == Stage(14)
    ensures ScanColumns(Sample, 4, 15, 15) == Stage(15)
  {
    SampleColumn(15);
    assert [356, 24] + [1] == [356, 24, 1];
  }

  /** Part B's column scan of the sample, right to left, closes the
      problems 4+431+623, 175*581*32, 8+248+369 and 356*24*1. */
  lemma SampleScan()
    ensures IsGrid(Sample, 4, 15)
    ensures ScanColumns(Sample, 4, 15, 15) == Stage(15)
  {
    SampleColumn(1);
    Column1(); Column2(); Column3(); Column4(); Column5();
    Column6(); Column7(); Column8(); Column9(); Column10();
    Column11(); Column12(); Column13(); Column14(); Column15();
  }

  /** `part_b` of the sample is 3263827. */
  lemma SamplePartB()
    ensures IsGrid(Sample, 4, 15) && PartBSpec(Sample, 4, 15) == 3263827
  {
    SampleScan();
    assert ByteOps([PLUS, STAR, PLUS, STAR]) == [Add, Mul, Add, Mul];
    SampleTotalB();
  }

  // ---------------------------------------------------------------- part A

  /** A gap of `k` spaces. */
  function Spaces(k: nat): (r: Bytes)
    ensures |r| == k && forall i :: 0 <= i < k ==> r[i] == SPACE
  {
    seq(k, _ => SPACE)
  }

  /** A word after a gap of any width, followed by whitespace or nothing,
      is the next token. */
  lemma {:induction false} PaddedWord(k: nat, w: Bytes, rest: Bytes)
    requires IsWord(w) && (rest == [] || IsWhitespace(rest[0]))
    ensures SplitWhitespace(Spaces(k) + w + rest) == [w] + SplitWhitespace(rest)
    decreases k
  {
    if k == 0 {
      assert Spaces(0) + w + rest == w + rest;
      SplitWhitespaceCons(w, rest);
    } else {
      var s := Spaces(k) + w + rest;
      assert s[1..] == Spaces(k - 1) + w + rest;
      SplitWhitespaceSkipsLeading(s, s[1..]);
      PaddedWord(k - 1, w, rest);
    }
  }

  /** The value of a word of one to three digits. */
  lemma Digits(w: Bytes)
    requires 1 <= |w| <= 3 && AllDigits(w)
    ensures IsWord(w)
    ensures |w| == 1 ==> DigitsValue(w) == w[0] - ZERO
    ensures |w| == 2 ==> DigitsValue(w) == 10 * (w[0] - ZERO) + (w[1] - ZERO)
    ensures |w| == 3 ==> DigitsValue(w) == 100 * (w[0] - ZERO) + 10 * (w[1] - ZERO) + (w[2] - ZERO)
  {
    if |w| >= 2 {
      assert w[..|w| - 1][..|w| - 2] == w[..|w| - 2];
    }
    if |w| == 3 {
      assert w[..2][..1] == w[..1];
    }
  }

  /** Words laid out after gaps of the given widths, then a run of
      trailing spaces. */
  function Layout(pads: seq<nat>, ws: seq<Bytes>, tail: nat): (r: Bytes)
    requires |pads| == |ws|
    ensures ws != [] && pads[0] >= 1 ==> r != [] && r[0] == SPACE
    ensures ws == [] ==> r == Spaces(tail)
  {
    if ws == [] then Spaces(tail) else Spaces(pads[0]) + ws[0] + Layout(pads[1..], ws[1..], tail)
  }

  /** Whatever the widths of the gaps, a laid-out line splits into its
      words, provided every gap between two words is at least one space. */
  lemma {:induction false} LayoutWords(pads: seq<nat>, ws: seq<Bytes>, tail: nat)
    requires |pads| == |ws| && forall k :: 1 <= k < |pads| ==> pads[k] >= 1
    requires forall k :: 0 <= k < |ws| ==> IsWord(ws[k])
    ensures SplitWhitespace(Layout(pads, ws, tail)) == ws
    decreases |ws|
  {
    if ws == [] {
      assert TrimStart(Spaces(tail)) == [];
    } else {
      var rest := Layout(pads[1..], ws[1..], tail);
      assert Layout(pads, ws, tail) == Spaces(pads[0]) + ws[0] + rest;
      assert rest == [] || IsWhitespace(rest[0]);
      LayoutWords(pads[1..], ws[1..], tail);
      PaddedWord(pads[0], ws[0], rest);
      assert ws == [ws[0]] + ws[1..];
    }
  }

  /** A four-word layout written out. */
  /** The gaps of the sample: at most two spaces. */
  lemma SpacesSmall()
    ensures Spaces(0) == [] && Spaces(1) == [SPACE] && Spaces(2) == [SPACE, SPACE]
  {
    assert Spaces(1)[0] == SPACE;
    assert Spaces(2)[0] == SPACE && Spaces(2)[1] == SPACE;
  }

  lemma Layout4(pads: seq<nat>, ws: seq<Bytes>, tail: nat)
    requires |pads| == 4 && |ws| == 4
    ensures Layout(pads, ws, tail) ==
      Spaces(pads[0]) + ws[0] + (Spaces(pads[1]) + ws[1] + (Spaces(pads[2]) + ws[2] + (Spaces(pads[3]) + ws[3] + Spaces(tail))))
  {
    var p1, w1 := pads[1..], ws[1..];
    var p2, w2 := p1[1..], w1[1..];
    var p3, w3 := p2[1..], w2[1..];
    assert Layout(p3, w3, tail) == Spaces(pads[3]) + ws[3] + Layout(p3[1..], w3[1..], tail);
    assert Layout(p3[1..], w3[1..], tail) == Spaces(tail);
    assert Layout(p2, w2, tail) == Spaces(pads[2]) + ws[2] + Layout(p3, w3, tail);
    assert Layout(p1, w1, tail) == Spaces(pads[1]) + ws[1] + Layout(p2, w2, tail);
  }

  const Words0: seq<Bytes> := [Ascii("123"), Ascii("328"), Ascii("51"), Ascii("64")]
  const Words1: seq<Bytes> := [Ascii("45"), Ascii("64"), Ascii("387"), Ascii("23")]
  const Words2: seq<Bytes> := [Ascii("6"), Ascii("98"), Ascii("215"), Ascii("314")]
  const Words3: seq<Bytes> := [[STAR], [PLUS], [STAR], [PLUS]]

  /** The tokens of each line. */
  lemma Line0Words()
    ensures SplitWhitespace(Line0) == Words0
  {
    Digits(Words0[0]);
    Digits(Words0[1]);
    Digits(Words0[2]);
    Digits(Words0[3]);
    Line0Layout();
    LayoutWords([0, 1, 2, 1], Words0, 1);
  }

  /** Each line is its words with the gaps of the sample's alignment. */
  lemma Line0Layout()
    ensures Line0 == Layout([0, 1, 2, 1], Words0, 1)
  {
    SpacesSmall();
    Layout4([0, 1, 2, 1], Words0, 1);
    assert Line0 == Spaces(0) + Words0[0] + (Spaces(1) + Words0[1] + (Spaces(2) + Words0[2] + (Spaces(1) + Words0[3] + Spaces(1))));
  }

  lemma Line1Words()
    ensures SplitWhitespace(Line1) == Words1
  {
    Digits(Words1[0]);
    Digits(Words1[1]);
    Digits(Words1[2]);
    Digits(Words1[3]);
    Line1Layout();
    LayoutWords([1, 1, 2, 1], Words1, 1);
  }

  lemma Line1Layout()
    ensures Line1 == Layout([1, 1, 2, 1], Words1, 1)
  {
    SpacesSmall();
    Layout4([1, 1, 2, 1], Words1, 1);
    assert Line1 == Spaces(1) + Words1[0] + (Spaces(1) + Words1[1] + (Spaces(2) + Words1[2] + (Spaces(1) + Words1[3] + Spaces(1))));
  }

  lemma Line2Words()
    ensures SplitWhitespace(Line2) == Words2
  {
    Digits(Words2[0]);
    Digits(Words2[1]);
    Digits(Words2[2]);
    Digits(Words2[3]);
    Line2Layout();
    LayoutWords([2, 1, 2, 1], Words2, 0);
  }

  lemma Line2Layout()
    ensures Line2 == Layout([2, 1, 2, 1], Words2, 0)
  {
    SpacesSmall();
    Layout4([2, 1, 2, 1], Words2, 0);
    assert Line2 == Spaces(2) + Words2[0] + (Spaces(1) + Words2[1] + (Spaces(2) + Words2[2] + (Spaces(1) + Words2[3] + Spaces(0))));
  }

  lemma Line3Words()
    ensures SplitWhitespace(Line3) == Words3
  {
    Line3Layout();
    LayoutWords([0, 3, 3, 3], Words3, 2);
  }

  lemma Line3Layout()
    ensures Line3 == Layout([0, 3, 3, 3], Words3, 2)
  {
    Layout4([0, 3, 3, 3], Words3, 2);
    assert Line3 == Spaces(0) + Words3[0] + (Spaces(3) + Words3[1] + (Spaces(3) + Words3[2] + (Spaces(3) + Words3[3] + Spaces(2))));
  }

  /** A run of digits parses to its value. */
  lemma WordValue(w: Bytes)
    requires w != [] && AllDigits(w)
    ensures DigitsValue(w) <= I64_MAX ==> ParseWord(w) == Ok(DigitsValue(w))
  {
  }

  /** Words that each parse give the list of their values. */
  lemma {:induction false} AllParse(ws: seq<Bytes>, vs: seq<int>)
    requires |ws| == |vs| && forall k :: 0 <= k < |ws| ==> ParseWord(ws[k]) == Ok(vs[k])
    ensures MapAll(ParseWord, ws) == Ok(vs)
  {
    var r := MapAll(ParseWord, ws);
    assert r.Ok? && |r.value| == |vs|;
    assert forall k :: 0 <= k < |vs| ==> r.value[k] == vs[k];
    assert r.value == vs;
  }

  /** The numbers on the three number lines. */
  const Numbers: seq<seq<int>> := [[123, 328, 51, 64], [45, 64, 387, 23], [6, 98, 215, 314]]

  /** Each word of a number line parses to its number. */
  lemma WordOfLine(i: nat, k: nat)
    requires i < 3 && k < 4
    ensures ParseWord([Words0, Words1, Words2][i][k]) == Ok(Numbers[i][k])
  {
    var w := [Words0, Words1, Words2][i][k];
    Digits(w);
    WordValue(w);
  }

  /** Each number line parses to its row of numbers. */
  lemma Line0Numbers()
    ensures ParseLine(Line0) == Ok(Numbers[0])
  {
    Line0Words();
    forall k | 0 <= k < 4 ensures ParseWord(Words0[k]) == Ok(Numbers[0][k]) {
      WordOfLine(0, k);
    }
    AllParse(Words0, Numbers[0]);
  }

  lemma Line1Numbers()
    ensures ParseLine(Line1) == Ok(Numbers[1])
  {
    Line1Words();
    forall k | 0 <= k < 4 ensures ParseWord(Words1[k]) == Ok(Numbers[1][k]) {
      WordOfLine(1, k);
    }
    AllParse(Words1, Numbers[1]);
  }

  lemma Line2Numbers()
    ensures ParseLine(Line2) == Ok(Numbers[2])
  {
    Line2Words();
    forall k | 0 <= k < 4 ensures ParseWord(Words2[k]) == Ok(Numbers[2][k]) {
      WordOfLine(2, k);
    }
    AllParse(Words2, Numbers[2]);
  }

  lemma Snoc3<T>(a: T, b: T, c: T)
    ensures [] + [a] == [a] && [a] + [b] == [a, b] && [a, b] + [c] == [a, b, c]
  {
  }

  /** One more number line appends its row. */
  lemma NumberRowsSnoc(lines: seq<Bytes>, n: nat, rows: seq<seq<int>>)
    requires 0 < n <= |lines| && NumberRows(lines[..n - 1]) == Ok(rows)
    requires !IsOperatorLine(lines[n - 1]) && ParseLine(lines[n - 1]).Ok?
    ensures NumberRows(lines[..n]) == Ok(rows + [ParseLine(lines[n - 1]).value])
  {
    assert lines[..n][..n - 1] == lines[..n - 1];
    assert lines[..n][n - 1] == lines[n - 1];
  }

  /** A last line that is an operator line adds no row and gives the
      operators. */
  lemma OperatorLast(lines: seq<Bytes>, rows: seq<seq<int>>)
    requires |lines| > 0 && IsOperatorLine(lines[|lines| - 1])
    requires NumberRows(lines[..|lines| - 1]) == Ok(rows)
    ensures NumberRows(lines) == Ok(rows)
    ensures OperatorWords(lines) == SplitWhitespace(lines[|lines| - 1])
  {
  }

  /** Three number lines and an operator line: the rows are the three
      lines' numbers and the operators the last line's words. */
  lemma FourLines(lines: seq<Bytes>)
    requires |lines| == 4 && IsOperatorLine(lines[3])
    requires !IsOperatorLine(lines[0]) && !IsOperatorLine(lines[1]) && !IsOperatorLine(lines[2])
    requires ParseLine(lines[0]).Ok? && ParseLine(lines[1]).Ok? && ParseLine(lines[2]).Ok?
    ensures NumberRows(lines) == Ok([ParseLine(lines[0]).value, ParseLine(lines[1]).value, ParseLine(lines[2]).value])
    ensures OperatorWords(lines) == SplitWhitespace(lines[3])
  {
    var v0, v1, v2 := ParseLine(lines[0]).value, ParseLine(lines[1]).value, ParseLine(lines[2]).value;
    assert lines[..0] == [];
    NumberRowsSnoc(lines, 1, []);
    Snoc3(v0, v1, v2);
    NumberRowsSnoc(lines, 2, [v0]);
    NumberRowsSnoc(lines, 3, [v0, v1]);
    OperatorLast(lines, [v0, v1, v2]);
  }

  /** The number lines in order; the operator line is the last line. */
  lemma SampleRows()
    ensures NumberRows(Sample) == Ok(Numbers)
    ensures OperatorWords(Sample) == Words3
  {
    var lines := Sample;
    assert lines[0] == Line0 && lines[1] == Line1 && lines[2] == Line2 && lines[3] == Line3;
    Line0Numbers();
    Line1Numbers();
    Line2Numbers();
    Line3Words();
    OperatorLines();
    FourLines(lines);
    assert [Numbers[0], Numbers[1], Numbers[2]] == Numbers;
  }

  /** Only the last line holds a `'*'`. */
  lemma OperatorLines()
    ensures !IsOperatorLine(Line0) && !IsOperatorLine(Line1) && !IsOperatorLine(Line2) && IsOperatorLine(Line3)
  {
    assert Line3[0] == STAR;
  }

  /** The columns of three rows of four numbers. */
  lemma ThreeRows(rows: seq<seq<int>>)
    requires |rows| == 3 && forall r :: 0 <= r < 3 ==> |rows[r]| == 4
    ensures Widest(rows) == 4
    ensures forall i :: 0 <= i < 4 ==> Column(rows, i) == [rows[0][i], rows[1][i], rows[2][i]]
  {
    var r1, r2 := rows[..1], rows[..2];
    assert rows[..2] == r2 && r2[..1] == r1 && r1[..0] == [];
    assert r1[0] == rows[0] && r2[1] == rows[1];
    assert Widest(r1) == 4;
    assert Widest(r2) == 4;
    forall i | 0 <= i < 4 ensures Column(rows, i) == [rows[0][i], rows[1][i], rows[2][i]] {
      assert Column(r1, i) == [] + [rows[0][i]];
      assert Column(r2, i) == [rows[0][i]] + [rows[1][i]];
    }
  }

  /** Part A's columns: problem `i` holds the i-th number of every line. */
  lemma SampleColumns()
    ensures Columns(Numbers) == [[123, 45, 6], [328, 64, 98], [51, 387, 215], [64, 23, 314]]
  {
    ColumnsAreColumnwise(Numbers);
    ThreeRows(Numbers);
  }

  /** Part A of a worksheet whose number rows and operator words are
      known. */
  lemma PartAOf(lines: seq<Bytes>, rows: seq<seq<int>>, ops: seq<Bytes>)
    requires NumberRows(lines) == Ok(rows) && OperatorWords(lines) == ops
    ensures PartASpec(lines) == Ok(Total(WordOps(ops), Columns(rows)))
  {
    GatherMeaning(lines);
  }

  /** The sample's operators applied to its columns total 4277556. */
  lemma SampleTotal()
    ensures Total(WordOps(Words3), Columns(Numbers)) == 4277556
  {
    SampleColumns();
    assert WordOps(Words3) == [Mul, Add, Mul, Add];
    SampleTotalA();
  }

  /** `part_a` of the sample is 4277556. */
  lemma SamplePartA()
    ensures PartASpec(Sample) == Ok(4277556)
  {
    SampleRows();
    PartAOf(Sample, Numbers, Words3);
    SampleTotal();
  }
}

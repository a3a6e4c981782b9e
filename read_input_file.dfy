/** The input readers, on the file contents (the `read_to_string` call and
    its failure are not modelled): the contents as lines, and as a byte grid
    or digit grid built with `Array2D::from_row_major` from the contents with
    every `\n` and `\r` removed. */
module ReadInputFile {
  import opened Wrappers
  import opened Text
  import opened Grid

  /** `get_question_data_lines` and `get_question_data_as_2d_matrix`: the
      lines of the file; on bytes a line and its byte vector are the same. */
  function QuestionDataLines(contents: Bytes): (ls: seq<Bytes>)
    ensures forall k :: 0 <= k < |ls| ==> NL !in ls[k]
    ensures |ls| == 0 <==> contents == []
  {
    Lines(contents)
  }

  /** `get_question_data_line`: the whole file, unchanged. */
  function QuestionDataLine(contents: Bytes): (s: Bytes)
    ensures s == contents
  {
    contents
  }

  /** `str::replace(b, "")` for a one-byte pattern. */
  function RemoveAll(s: Bytes, b: byte): (r: Bytes)
    ensures b !in r && |r| <= |s|
  {
    if s == [] then [] else (if s[0] == b then [] else [s[0]]) + RemoveAll(s[1..], b)
  }

  lemma {:induction false} RemoveAllConcat(s: Bytes, t: Bytes, b: byte)
    ensures RemoveAll(s + t, b) == RemoveAll(s, b) + RemoveAll(t, b)
    decreases |s|
  {
    if s == [] {
      assert s + t == t;
    } else {
      var head := if s[0] == b then [] else [s[0]];
      RemoveAllConcat(s[1..], t, b);
      assert (s + t)[1..] == s[1..] + t;
      calc {
        RemoveAll(s + t, b);
        head + RemoveAll(s[1..] + t, b);
        head + (RemoveAll(s[1..], b) + RemoveAll(t, b));
        (head + RemoveAll(s[1..], b)) + RemoveAll(t, b);
      }
    }
  }

  lemma {:induction false} RemoveAllAbsent(s: Bytes, b: byte)
    requires b !in s
    ensures RemoveAll(s, b) == s
    decreases |s|
  {
    if s != [] {
      RemoveAllAbsent(s[1..], b);
    }
  }

  /** `replace("\n", "").replace("\r", "")`. */
  function Filtered(contents: Bytes): (r: Bytes)
    ensures NL !in r && CR !in r
  {
    var r := RemoveAll(RemoveAll(contents, NL), CR);
    assert NL !in r by {
      RemoveAllKeeps(RemoveAll(contents, NL), CR);
    }
    r
  }

  lemma {:induction false} RemoveAllKeeps(s: Bytes, b: byte)
    ensures forall x :: x in RemoveAll(s, b) ==> x in s
    decreases |s|
  {
    if s != [] {
      RemoveAllKeeps(s[1..], b);
    }
  }

  /** `Array2D::from_row_major(elems, rows, cols).unwrap()`. */
  function GridFrom<T>(elems: seq<T>, rows: nat, cols: nat): (r: Result<seq<seq<T>>>)
    ensures r.Ok? <==> |elems| == rows * cols
    ensures r.Ok? ==> IsGrid(r.value, rows, cols) && FromRowMajor(elems, rows, cols) == Some(r.value)
  {
    match FromRowMajor(elems, rows, cols)
    case None => Panic("called `Result::unwrap()` on an `Err` value: DimensionMismatch")
    case Some(g) => Ok(g)
  }

  /** `get_question_data_to_grid` as written: `lines[0].len()` is passed as
      the row count and `lines.len()` as the column count. */
  function ToGridAsWritten(contents: Bytes): (r: Result<seq<seq<byte>>>)
    ensures r.Panic? <==> Lines(contents) == [] || |Filtered(contents)| != |Lines(contents)[0]| * |Lines(contents)|
    ensures r.Ok? ==> IsGrid(r.value, |Lines(contents)[0]|, |Lines(contents)|)
  {
    var lines := Lines(contents);
    if lines == [] then Panic("index out of bounds: the len is 0 but the index is 0")
    else GridFrom(Filtered(contents), |lines[0]|, |lines|)
  }

  /** The byte grid with one row per line: `from_row_major(bytes,
      lines.len(), lines[0].len())`.  Panics on empty contents (`lines[0]`)
      and when the bytes do not fill the shape (ragged lines). */
  function ToGrid(contents: Bytes): (r: Result<seq<seq<byte>>>)
    ensures r.Panic? <==> Lines(contents) == [] || |Filtered(contents)| != |Lines(contents)| * |Lines(contents)[0]|
    ensures r.Ok? ==> IsGrid(r.value, |Lines(contents)|, |Lines(contents)[0]|)
  {
    var lines := Lines(contents);
    if lines == [] then Panic("index out of bounds: the len is 0 but the index is 0")
    else GridFrom(Filtered(contents), |lines|, |lines[0]|)
  }

  /** `(a - b'0') as i64` for every byte: `u8` subtraction panics below `'0'`. */
  function DigitValues(s: Bytes): (r: Result<seq<int>>)
    ensures r.Ok? <==> forall i :: 0 <= i < |s| ==> s[i] >= ZERO
    ensures r.Ok? ==> |r.value| == |s| && forall i :: 0 <= i < |s| ==> r.value[i] == s[i] - ZERO
  {
    if s == [] then Ok([])
    else if s[0] < ZERO then Panic("attempt to subtract with overflow")
    else
      match DigitValues(s[1..])
      case Panic(why) => Panic(why)
      case Ok(vs) => Ok([s[0] - ZERO] + vs)
  }

  /** `get_question_data_to_num_grid` as written (same shape as
      `ToGridAsWritten`). */
  function ToNumGridAsWritten(contents: Bytes): (r: Result<seq<seq<int>>>)
  {
    var lines := Lines(contents);
    match DigitValues(Filtered(contents))
    case Panic(why) => Panic(why)
    case Ok(values) =>
      if lines == [] then Panic("index out of bounds: the len is 0 but the index is 0")
      else GridFrom(values, |lines[0]|, |lines|)
  }

  /** The digit grid with one row per line. */
  function ToNumGrid(contents: Bytes): (r: Result<seq<seq<int>>>)
  {
    var lines := Lines(contents);
    match DigitValues(Filtered(contents))
    case Panic(why) => Panic(why)
    case Ok(values) =>
      if lines == [] then Panic("index out of bounds: the len is 0 but the index is 0")
      else GridFrom(values, |lines|, |lines[0]|)
  }

  /** A file whose lines are each ended by `\n`. */
  function Unlines(ls: seq<Bytes>): Bytes
  {
    if ls == [] then [] else ls[0] + [NL] + Unlines(ls[1..])
  }

  predicate PlainLine(l: Bytes)
  {
    NL !in l && CR !in l
  }

  /** Reading the lines of such a file gives them back. */
  lemma {:induction false} LinesOfUnlines(ls: seq<Bytes>)
    requires forall k :: 0 <= k < |ls| ==> PlainLine(ls[k])
    ensures QuestionDataLines(Unlines(ls)) == ls
    decreases |ls|
  {
    if ls != [] {
      var s := Unlines(ls);
      var rest := Unlines(ls[1..]);
      FirstSeparator(ls[0], NL, rest);
      assert s[..|ls[0]|] == ls[0];
      assert s[|ls[0]| + 1..] == rest;
      LinesOfUnlines(ls[1..]);
    }
  }

  /** Removing `b` from a line without `b` followed by `b` leaves the line. */
  lemma RemoveAllLine(line: Bytes, b: byte, rest: Bytes)
    requires b !in line
    ensures RemoveAll(line + [b] + rest, b) == line + RemoveAll(rest, b)
  {
    RemoveAllConcat(line + [b], rest, b);
    RemoveAllConcat(line, [b], b);
    assert [b][1..] == [];
    assert RemoveAll([b], b) == [];
    RemoveAllAbsent(line, b);
    assert line + [] == line;
  }

  lemma FilteredLine(line: Bytes, rest: Bytes)
    requires PlainLine(line)
    ensures Filtered(line + [NL] + rest) == line + Filtered(rest)
  {
    RemoveAllLine(line, NL, rest);
    RemoveAllConcat(line, RemoveAll(rest, NL), CR);
    RemoveAllAbsent(line, CR);
  }

  /** Removing the line ends leaves the lines one after another. */
  lemma {:induction false} FilteredOfUnlines(ls: seq<Bytes>)
    requires forall k :: 0 <= k < |ls| ==> PlainLine(ls[k])
    ensures Filtered(Unlines(ls)) == RowMajor(ls)
    decreases |ls|
  {
    if ls != [] {
      FilteredOfUnlines(ls[1..]);
      FilteredLine(ls[0], Unlines(ls[1..]));
    }
  }

  /** A file of equally long lines reads back as the grid of its lines. */
  lemma GridOfLines(ls: seq<Bytes>, width: nat)
    requires |ls| > 0 && IsGrid(ls, |ls|, width)
    requires forall k :: 0 <= k < |ls| ==> PlainLine(ls[k])
    ensures ToGrid(Unlines(ls)) == Ok(ls)
  {
    LinesOfUnlines(ls);
    FilteredOfUnlines(ls);
    RowMajorLength(ls, |ls|, width);
    FromRowMajorOfRowMajor(ls, |ls|, width);
  }

  /** For square input the shape written in the source is the right one. */
  lemma SquareGridAsWritten(ls: seq<Bytes>)
    requires |ls| > 0 && IsGrid(ls, |ls|, |ls|)
    requires forall k :: 0 <= k < |ls| ==> PlainLine(ls[k])
    ensures ToGridAsWritten(Unlines(ls)) == ToGrid(Unlines(ls)) == Ok(ls)
  {
    GridOfLines(ls, |ls|);
  }

  /** A file of two lines of three bytes comes back from the source's shape
      as three rows of two cells: `abc`/`def` becomes `ab`/`cd`/`ef`. */
  lemma TransposedShapeExample()
    ensures var ls := [[97, 98, 99], [100, 101, 102]];
            ToGridAsWritten(Unlines(ls)).Ok? && |ToGridAsWritten(Unlines(ls)).value| == 3 &&
            ToGridAsWritten(Unlines(ls)).value != ls
  {
    var ls: seq<Bytes> := [[97, 98, 99], [100, 101, 102]];
    assert PlainLine(ls[0]) && PlainLine(ls[1]);
    LinesOfUnlines(ls);
    FilteredOfUnlines(ls);
    RowMajorLength(ls, 2, 3);
  }

  /** The digit grid panics exactly when the byte grid does or some byte
      is below `'0'`. */
  lemma NumGridPanics(contents: Bytes)
    ensures ToNumGrid(contents).Ok? <==> ToGrid(contents).Ok? && forall b :: b in Filtered(contents) ==> b >= ZERO
  {
    var f := Filtered(contents);
    assert (forall b :: b in f ==> b >= ZERO) <==> (forall i :: 0 <= i < |f| ==> f[i] >= ZERO) by {
      assert forall i :: 0 <= i < |f| ==> f[i] in f;
    }
  }

  /** As written, the digit grid panics exactly when the as-written byte
      grid does or some byte is below `'0'`, and otherwise has the same
      (swapped) shape. */
  lemma NumGridAsWrittenPanics(contents: Bytes)
    ensures ToNumGridAsWritten(contents).Ok? <==>
              ToGridAsWritten(contents).Ok? && forall b :: b in Filtered(contents) ==> b >= ZERO
    ensures ToNumGridAsWritten(contents).Ok? ==>
              IsGrid(ToNumGridAsWritten(contents).value, |Lines(contents)[0]|, |Lines(contents)|)
  {
    var f := Filtered(contents);
    assert (forall b :: b in f ==> b >= ZERO) <==> (forall i :: 0 <= i < |f| ==> f[i] >= ZERO) by {
      assert forall i :: 0 <= i < |f| ==> f[i] in f;
    }
  }

  /** The digit grid has the byte grid's shape, cell `(i, j)` being the byte
      minus `'0'`. */
  lemma NumGridCells(contents: Bytes)
    requires ToNumGrid(contents).Ok?
    ensures ToGrid(contents).Ok?
    ensures var g, n := ToGrid(contents).value, ToNumGrid(contents).value;
            |n| == |g| && forall i, j :: 0 <= i < |g| && 0 <= j < |g[i]| ==> j < |n[i]| && n[i][j] == g[i][j] - ZERO
  {
    var f := Filtered(contents);
    var lines := Lines(contents);
    var rows, cols := |lines|, |lines[0]|;
    var values := DigitValues(f).value;
    var n := GridFrom(values, rows, cols).value;
    var g := GridFrom(f, rows, cols).value;
    assert ToNumGrid(contents) == Ok(n);
    assert ToGrid(contents) == Ok(g);
    DigitGridCells(f, values, rows, cols, g, n);
  }

  /** The digit grid and the byte grid built from matching elements agree
      cell by cell. */
  lemma DigitGridCells(f: Bytes, values: seq<int>, rows: nat, cols: nat, g: seq<seq<byte>>, n: seq<seq<int>>)
    requires |f| == |values| == rows * cols
    requires forall k :: 0 <= k < |f| ==> values[k] == f[k] - ZERO
    requires FromRowMajor(f, rows, cols) == Some(g) && FromRowMajor(values, rows, cols) == Some(n)
    ensures IsGrid(g, rows, cols) && IsGrid(n, rows, cols)
    ensures forall i, j :: 0 <= i < rows && 0 <= j < cols ==> n[i][j] == g[i][j] - ZERO
  {
    forall i, j | 0 <= i < rows && 0 <= j < cols ensures n[i][j] == g[i][j] - ZERO {
      FromRowMajorCell(f, rows, cols, i, j);
      FromRowMajorCell(values, rows, cols, i, j);
    }
  }
}

/** Day 12, part A: present shapes are small `#`/`.` grids; each region
    line `WxH: c0 c1 ...` says how many of each shape must fit into a
    `W`-by-`H` space.  The answer counts the regions whose total shape area
    is strictly below their own area. */
module Day12 {
  import opened Wrappers
  import opened Text
  import opened Grid

  const COLON: byte := 58
  const X: byte := 120     // 'x'
  const HASH: byte := 35   // '#'
  const U32_LIMIT: nat := 0x1_0000_0000
  const USIZE_LIMIT: nat := 0x1_0000_0000_0000_0000

  const INVALID_FORMAT := "Invalid format: expected 'WIDTHxHEIGHT: shape_counts'"
  const INVALID_DIMENSIONS := "Invalid dimensions format: expected 'WIDTHxHEIGHT'"
  const PARSE_INT_ERR := "called `Result::unwrap()` on an `Err` value: ParseIntError"
  const INVALID_COUNT := "called `Result::unwrap()` on an `Err` value: \"Invalid shape count\""

  /** A region: its width and height and how many of each shape it needs. */
  datatype Space = Space(width: nat, height: nat, shapeCounts: seq<nat>)

  // ---------------------------------------------------------------- parsing

  /** `str::parse::<u32>()`: decimal text whose value fits in 32 bits. */
  function ParseU32(s: Bytes): (r: Option<nat>)
    ensures r.Some? ==> r.value < U32_LIMIT && ParseUnsigned(s) == r
    ensures r.None? ==> ParseUnsigned(s).None? || ParseUnsigned(s).value >= U32_LIMIT
  {
    match ParseUnsigned(s)
    case Some(v) => if v < U32_LIMIT then Some(v) else None
    case None => None
  }

  /** `str::parse::<usize>()` for a 64-bit target. */
  function ParseCount(s: Bytes): (r: Result<nat>)
    ensures r.Ok? ==> r.value < USIZE_LIMIT && ParseUnsigned(s) == Some(r.value)
    ensures r.Panic? ==> ParseUnsigned(s).None? || ParseUnsigned(s).value >= USIZE_LIMIT
  {
    match ParseUnsigned(s)
    case Some(v) => if v < USIZE_LIMIT then Ok(v) else Panic(INVALID_COUNT)
    case None => Panic(INVALID_COUNT)
  }

  /** `Space::from`: exactly one `:`; before it, after trimming, exactly one
      `x` between two `u32`s; after it, whitespace-separated `usize`s.
      Anything else panics. */
  function ParseSpace(line: Bytes): (r: Result<Space>)
    ensures |Split(line, COLON)| != 2 ==> r.Panic?
    ensures |Split(line, COLON)| == 2 && |Split(Trim(Split(line, COLON)[0]), X)| != 2 ==> r.Panic?
    ensures r.Ok? ==> r.value.width < U32_LIMIT && r.value.height < U32_LIMIT
    ensures r.Ok? ==> forall k :: 0 <= k < |r.value.shapeCounts| ==> r.value.shapeCounts[k] < USIZE_LIMIT
  {
    var parts := Split(line, COLON);
    if |parts| != 2 then Panic(INVALID_FORMAT)
    else
      var dimParts := Split(Trim(parts[0]), X);
      if |dimParts| != 2 then Panic(INVALID_DIMENSIONS)
      else
        match ParseU32(dimParts[0])
        case None => Panic(PARSE_INT_ERR)
        case Some(width) =>
          match ParseU32(dimParts[1])
          case None => Panic(PARSE_INT_ERR)
          case Some(height) =>
            match MapAll(ParseCount, SplitWhitespace(Trim(parts[1])))
            case Panic(why) => Panic(why)
            case Ok(counts) => Ok(Space(width, height, counts))
  }

  /** The decimal texts of a list of numbers. */
  function Decimals(ns: seq<nat>): (ds: seq<Bytes>)
    ensures |ds| == |ns| && forall k :: 0 <= k < |ns| ==> ds[k] == Decimal(ns[k])
  {
    seq(|ns|, k requires 0 <= k < |ns| => Decimal(ns[k]))
  }

  /** The text of a region line, `WxH: c0 c1 ...`. */
  function SpaceText(s: Space): Bytes
  {
    DimensionsText(s) + [COLON] + CountsText(s)
  }

  /** `WxH` */
  function DimensionsText(s: Space): Bytes
  {
    Decimal(s.width) + [X] + Decimal(s.height)
  }

  /** ` c0 c1 ...` */
  function CountsText(s: Space): Bytes
  {
    [SPACE] + Spaced(Decimals(s.shapeCounts))
  }

  lemma DigitsNoByte(s: Bytes, b: byte)
    requires AllDigits(s) && !IsDigit(b)
    ensures b !in s
  {
  }

  /** The dimensions part of a region line splits into its two numbers. */
  lemma DimensionsSplit(a: Bytes, b: Bytes)
    requires AllDigits(a) && AllDigits(b)
    ensures |Split(a + [X] + b, X)| == 2
    ensures Split(a + [X] + b, X)[0] == a && Split(a + [X] + b, X)[1] == b
  {
    DigitsNoByte(a, X);
    DigitsNoByte(b, X);
    SplitCons(a, X, b);
    SplitNoSep(b, X);
  }

  /** ... and is already trimmed. */
  lemma DimensionsTrimmed(a: Bytes, b: Bytes)
    requires |a| >= 1 && |b| >= 1 && AllDigits(a) && AllDigits(b)
    ensures Trim(a + [X] + b) == a + [X] + b
  {
    var d := a + [X] + b;
    assert d[0] == a[0] && d[|d| - 1] == b[|b| - 1];
    TrimNoop(d);
  }

  /** Words joined by spaces start and end in non-whitespace. */
  lemma {:induction false} SpacedEnds(ws: seq<Bytes>)
    requires |ws| >= 1 && forall k :: 0 <= k < |ws| ==> IsWord(ws[k])
    ensures |Spaced(ws)| >= 1
    ensures !IsWhitespace(Spaced(ws)[0]) && !IsWhitespace(Spaced(ws)[|Spaced(ws)| - 1])
  {
    assert IsWord(ws[0]);
    if |ws| > 1 {
      SpacedEnds(ws[1..]);
      assert IsWord(ws[1..][0]);
    }
  }

  /** Digit texts are words. */
  lemma DigitTextsAreWords(ds: seq<Bytes>)
    requires forall k :: 0 <= k < |ds| ==> |ds[k]| >= 1 && AllDigits(ds[k])
    ensures forall k :: 0 <= k < |ds| ==> IsWord(ds[k])
  {
    forall k | 0 <= k < |ds| ensures IsWord(ds[k]) {
      assert AllDigits(ds[k]);
    }
  }

  /** The counts part of a region line trims to the counts. */
  lemma CountsOfText(ds: seq<Bytes>)
    requires forall k :: 0 <= k < |ds| ==> |ds[k]| >= 1 && AllDigits(ds[k])
    ensures SplitWhitespace(Trim([SPACE] + Spaced(ds))) == ds
  {
    DigitTextsAreWords(ds);
    var t := Spaced(ds);
    TrimLeadingSpace(t);
    if ds != [] {
      SpacedEnds(ds);
    }
    TrimNoop(t);
    SplitWhitespaceOfSpaced(ds);
  }

  lemma TrimLeadingSpace(t: Bytes)
    ensures Trim([SPACE] + t) == Trim(t)
  {
    assert ([SPACE] + t)[1..] == t;
  }

  lemma {:induction false} SpacedNoColon(ds: seq<Bytes>)
    requires forall k :: 0 <= k < |ds| ==> AllDigits(ds[k])
    ensures COLON !in Spaced(ds)
  {
    if |ds| > 1 {
      SpacedNoColon(ds[1..]);
      DigitsNoByte(ds[0], COLON);
    } else if |ds| == 1 {
      DigitsNoByte(ds[0], COLON);
    }
  }

  lemma ParseCountsOfDecimals(ns: seq<nat>)
    requires forall k :: 0 <= k < |ns| ==> ns[k] < USIZE_LIMIT
    ensures MapAll(ParseCount, Decimals(ns)).Ok?
    ensures MapAll(ParseCount, Decimals(ns)).value == ns
  {
    var ds := Decimals(ns);
    forall k | 0 <= k < |ds| ensures ParseCount(ds[k]) == Ok(ns[k]) {
      DecimalParses(ns[k]);
    }
  }

  /** `dims:rest` splits at its one colon. */
  lemma LineParts(dims: Bytes, rest: Bytes)
    requires COLON !in dims && COLON !in rest
    ensures |Split(dims + [COLON] + rest, COLON)| == 2
    ensures Split(dims + [COLON] + rest, COLON)[0] == dims && Split(dims + [COLON] + rest, COLON)[1] == rest
  {
    SplitCons(dims, COLON, rest);
    SplitNoSep(rest, COLON);
  }

  /** A `u32` written in decimal parses back. */
  lemma ParseU32OfDecimal(n: nat)
    requires n < U32_LIMIT
    ensures ParseU32(Decimal(n)) == Some(n)
  {
    DecimalParses(n);
  }

  /** `Space::from` once every step has succeeded. */
  lemma ParseSpaceSteps(line: Bytes, dims: Bytes, rest: Bytes, a: Bytes, b: Bytes, s: Space)
    requires |Split(line, COLON)| == 2 && Split(line, COLON)[0] == dims && Split(line, COLON)[1] == rest
    requires |Split(Trim(dims), X)| == 2 && Split(Trim(dims), X)[0] == a && Split(Trim(dims), X)[1] == b
    requires ParseU32(a) == Some(s.width) && ParseU32(b) == Some(s.height)
    requires MapAll(ParseCount, SplitWhitespace(Trim(rest))).Ok?
    requires MapAll(ParseCount, SplitWhitespace(Trim(rest))).value == s.shapeCounts
    ensures ParseSpace(line).Ok? && ParseSpace(line).value == s
  {
  }

  /** The line splits at its colon into dimensions and counts. */
  lemma SpaceTextParts(s: Space)
    ensures |Split(SpaceText(s), COLON)| == 2
    ensures Split(SpaceText(s), COLON)[0] == DimensionsText(s)
    ensures Split(SpaceText(s), COLON)[1] == CountsText(s)
  {
    var a, b := Decimal(s.width), Decimal(s.height);
    DigitsNoByte(a, COLON);
    DigitsNoByte(b, COLON);
    SpacedNoColon(Decimals(s.shapeCounts));
    LineParts(DimensionsText(s), CountsText(s));
  }

  /** The dimensions text gives back the width and height. */
  lemma DimensionsTextParts(s: Space)
    requires s.width < U32_LIMIT && s.height < U32_LIMIT
    ensures |Split(Trim(DimensionsText(s)), X)| == 2
    ensures ParseU32(Split(Trim(DimensionsText(s)), X)[0]) == Some(s.width)
    ensures ParseU32(Split(Trim(DimensionsText(s)), X)[1]) == Some(s.height)
  {
    var a, b := Decimal(s.width), Decimal(s.height);
    DimensionsPieces(a, b);
    ParseU32OfDecimal(s.width);
    ParseU32OfDecimal(s.height);
  }

  lemma DimensionsPieces(a: Bytes, b: Bytes)
    requires |a| >= 1 && |b| >= 1 && AllDigits(a) && AllDigits(b)
    ensures |Split(Trim(a + [X] + b), X)| == 2
    ensures Split(Trim(a + [X] + b), X)[0] == a && Split(Trim(a + [X] + b), X)[1] == b
  {
    DimensionsTrimmed(a, b);
    DimensionsSplit(a, b);
  }

  /** The counts text gives back the counts. */
  lemma CountsTextParts(s: Space)
    requires forall k :: 0 <= k < |s.shapeCounts| ==> s.shapeCounts[k] < USIZE_LIMIT
    ensures MapAll(ParseCount, SplitWhitespace(Trim(CountsText(s)))).Ok?
    ensures MapAll(ParseCount, SplitWhitespace(Trim(CountsText(s)))).value == s.shapeCounts
  {
    CountsOfText(Decimals(s.shapeCounts));
    ParseCountsOfDecimals(s.shapeCounts);
  }

  /** A region written out as `WxH: c0 c1 ...` parses back to itself. */
  lemma ParseSpaceText(s: Space)
    requires s.width < U32_LIMIT && s.height < U32_LIMIT
    requires forall k :: 0 <= k < |s.shapeCounts| ==> s.shapeCounts[k] < USIZE_LIMIT
    ensures ParseSpace(SpaceText(s)).Ok?
    ensures ParseSpace(SpaceText(s)).value == s
  {
    SpaceTextParts(s);
    DimensionsTextParts(s);
    CountsTextParts(s);
    var dims := Split(Trim(DimensionsText(s)), X);
    ParseSpaceSteps(SpaceText(s), DimensionsText(s), CountsText(s), dims[0], dims[1], s);
  }

  /** A line without a `:` is rejected. */
  lemma NoColonPanics(line: Bytes)
    requires COLON !in line
    ensures ParseSpace(line).Panic?
  {
    SplitNoSep(line, COLON);
  }

  /** A line with a second `:` is rejected. */
  lemma TwoColonsPanic(a: Bytes, b: Bytes, c: Bytes)
    requires COLON !in a && COLON !in b
    ensures ParseSpace(a + [COLON] + b + [COLON] + c).Panic?
  {
    var rest := b + [COLON] + c;
    assert a + [COLON] + b + [COLON] + c == a + [COLON] + rest;
    SplitCons(a, COLON, rest);
    SplitCons(b, COLON, c);
  }

  // ----------------------------------------------------------------- shapes

  /** The number of occurrences of `b` in `s`. */
  function Occurrences(s: Bytes, b: byte): (n: nat)
    ensures n <= |s|
  {
    if s == [] then 0 else Occurrences(s[..|s| - 1], b) + (if s[|s| - 1] == b then 1 else 0)
  }

  /** `Occurrences` is the multiplicity of `b` in `s`. */
  lemma {:induction false} OccurrencesIsMultiplicity(s: Bytes, b: byte)
    ensures Occurrences(s, b) == multiset(s)[b]
  {
    if s != [] {
      OccurrencesIsMultiplicity(s[..|s| - 1], b);
      assert s == s[..|s| - 1] + [s[|s| - 1]];
    }
  }

  /** `Shape::filled_area`: the `#` cells of the shape, read row by row. */
  function FilledArea(shape: seq<seq<byte>>): nat
  {
    Occurrences(RowMajor<byte>(shape), HASH)
  }

  /** The filled area is the number of `#` in the row-major cells, and at
      most the number of cells. */
  lemma FilledAreaBounds(shape: seq<seq<byte>>, rows: nat, cols: nat)
    requires IsGrid(shape, rows, cols)
    ensures FilledArea(shape) == multiset(RowMajor<byte>(shape))[HASH]
    ensures FilledArea(shape) <= rows * cols
  {
    var cells := RowMajor<byte>(shape);
    OccurrencesIsMultiplicity(cells, HASH);
    RowMajorLength(shape, rows, cols);
    assert FilledArea(shape) == Occurrences(cells, HASH) <= |cells|;
  }

  /** The filled area is the sum of the rows' `#` counts. */
  lemma {:induction false} FilledAreaByRows(shape: seq<seq<byte>>)
    ensures shape != [] ==> FilledArea(shape) == Occurrences(shape[0], HASH) + FilledArea(shape[1..])
    ensures shape == [] ==> FilledArea(shape) == 0
  {
    if shape != [] {
      OccurrencesAppend(shape[0], RowMajor<byte>(shape[1..]), HASH);
    }
  }

  lemma {:induction false} OccurrencesAppend(a: Bytes, b: Bytes, x: byte)
    ensures Occurrences(a + b, x) == Occurrences(a, x) + Occurrences(b, x)
  {
    OccurrencesIsMultiplicity(a + b, x);
    OccurrencesIsMultiplicity(a, x);
    OccurrencesIsMultiplicity(b, x);
    assert multiset(a + b) == multiset(a) + multiset(b);
  }

  /** `size_of_shapes`: the filled area of each shape, in order. */
  function Areas(shapes: seq<seq<seq<byte>>>): (a: seq<nat>)
    ensures |a| == |shapes| && forall k :: 0 <= k < |shapes| ==> a[k] == FilledArea(shapes[k])
  {
    seq(|shapes|, k requires 0 <= k < |shapes| => FilledArea(shapes[k]))
  }

  // ---------------------------------------------------------------- regions

  /** The lines that contain an `x`, in order. */
  function RegionLines(lines: seq<Bytes>): (r: seq<Bytes>)
    ensures forall k :: 0 <= k < |r| ==> X in r[k] && r[k] in lines
    ensures forall k :: 0 <= k < |lines| && X in lines[k] ==> lines[k] in r
  {
    if lines == [] then []
    else
      var pre := RegionLines(lines[..|lines| - 1]);
      assert forall k :: 0 <= k < |lines| - 1 ==> lines[..|lines| - 1][k] == lines[k];
      pre + (if X in lines[|lines| - 1] then [lines[|lines| - 1]] else [])
  }

  /** `zip(areas, counts).map(|(a, c)| a * c).sum()`: pairs up to the
      shorter list. */
  function Required(areas: seq<nat>, counts: seq<nat>): nat
  {
    if areas == [] || counts == [] then 0
    else areas[0] * counts[0] + Required(areas[1..], counts[1..])
  }

  /** Only the first `min(|areas|, |counts|)` pairs matter. */
  lemma {:induction false} RequiredTruncates(areas: seq<nat>, counts: seq<nat>, n: nat)
    requires n == if |areas| < |counts| then |areas| else |counts|
    ensures Required(areas, counts) == Required(areas[..n], counts[..n])
  {
    if n > 0 {
      assert areas[..n][1..] == areas[1..][..n - 1];
      assert counts[..n][1..] == counts[1..][..n - 1];
      RequiredTruncates(areas[1..], counts[1..], n - 1);
    }
  }

  /** Zip is symmetric. */
  lemma {:induction false} RequiredSymmetric(areas: seq<nat>, counts: seq<nat>)
    ensures Required(areas, counts) == Required(counts, areas)
  {
    if areas != [] && counts != [] {
      RequiredSymmetric(areas[1..], counts[1..]);
    }
  }

  /** Adding one more copy of shape `k` adds its area. */
  lemma {:induction false} RequiredMonotone(areas: seq<nat>, counts: seq<nat>, k: nat)
    requires k < |areas| && k < |counts|
    ensures Required(areas, counts[k := counts[k] + 1]) == Required(areas, counts) + areas[k]
  {
    if k > 0 {
      assert counts[k := counts[k] + 1][1..] == counts[1..][k - 1 := counts[k] + 1];
      RequiredMonotone(areas[1..], counts[1..], k - 1);
    }
  }

  /** The naive packing test of one region. */
  predicate Fits(areas: seq<nat>, s: Space)
  {
    Required(areas, s.shapeCounts) < s.width * s.height
  }

  /** The number of regions that pass the test. */
  function CountFits(areas: seq<nat>, spaces: seq<Space>): (n: nat)
    ensures n <= |spaces|
  {
    if spaces == [] then 0
    else CountFits(areas, spaces[..|spaces| - 1]) + (if Fits(areas, spaces[|spaces| - 1]) then 1 else 0)
  }

  /** `CountFits` is the size of the set of passing positions. */
  lemma {:induction false} CountFitsIsCardinality(areas: seq<nat>, spaces: seq<Space>)
    ensures CountFits(areas, spaces) == |set k | 0 <= k < |spaces| && Fits(areas, spaces[k])|
  {
    if spaces != [] {
      var n := |spaces| - 1;
      CountFitsIsCardinality(areas, spaces[..n]);
      var a := set k | 0 <= k < n && Fits(areas, spaces[..n][k]);
      var b := set k | 0 <= k < |spaces| && Fits(areas, spaces[k]);
      assert a == set k | 0 <= k < n && Fits(areas, spaces[k]);
      if Fits(areas, spaces[n]) {
        assert b == a + {n};
      } else {
        assert b == a;
      }
    }
  }

  /** The loop `for space in &spaces { if .. { sum += 1 } }`. */
  method CountFitting(areas: seq<nat>, spaces: seq<Space>) returns (sum: nat)
    ensures sum == CountFits(areas, spaces)
  {
    sum := 0;
    for i := 0 to |spaces|
      invariant sum == CountFits(areas, spaces[..i])
    {
      assert spaces[..i + 1][..i] == spaces[..i];
      if Required(areas, spaces[i].shapeCounts) < spaces[i].width * spaces[i].height {
        sum := sum + 1;
      }
    }
    assert spaces[..|spaces|] == spaces;
  }

  /** `part_a` given the shapes (read by a helper outside this model) and
      the lines of the input: panics iff some `x` line is not a region,
      otherwise counts the regions that pass the area test. */
  method PartA(shapes: seq<seq<seq<byte>>>, lines: seq<Bytes>) returns (r: Result<nat>)
    ensures r.Panic? <==> MapAll(ParseSpace, RegionLines(lines)).Panic?
    ensures r.Ok? ==> r.value == CountFits(Areas(shapes), MapAll(ParseSpace, RegionLines(lines)).value)
  {
    match MapAll(ParseSpace, RegionLines(lines))
    case Panic(why) => r := Panic(why);
    case Ok(spaces) =>
      var areas := Areas(shapes);
      var sum := CountFitting(areas, spaces);
      r := Ok(sum);
  }
}

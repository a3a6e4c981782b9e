# Advent of Code 2025 solvers, modelled in Dafny

This project models the Rust workspace of Advent of Code 2025 solutions:

- **The `shared` library:**
  - the grid utilities: polygon infill, flood fill, rotation, trimming, maze shortest paths and the digit iterator;
  - combinations;
  - the input-file naming and reading helpers.
- **The solvers for days 1–7 and 9–12:**
  - the dial of day 1;
  - the repeated IDs of day 2;
  - the battery banks of day 3;
  - the paper rolls of day 4;
  - the fresh-ingredient ranges of day 5;
  - the worksheet of day 6;
  - the tachyon splitters of day 7;
  - the red-tile rectangles of day 9;
  - the button machines of day 10, solved by Gaussian elimination;
  - the device paths of day 11;
  - the present regions of day 12.

There is one Dafny module per source file. Two modules add proofs beside their day: `Day6Sample` works the published day 6 example through both parts, and `Day10Solutions` proves that day 10's elimination keeps the solutions of the system.

Conventions:

- Text is a sequence of bytes.
- A Rust panic (`unwrap`, `assert`, arithmetic underflow) is the `Panic` case of `Wrappers.Result`, carrying the message.
- Rust's truncating `/` and `%` are written out in `RustInt`.
- Grids that the source updates in place (`Array2D`) are `array2` values. Their contents are read through `Grid.Snapshot`.
- The methods that change them are proved against specification functions on those snapshots.
- Pure code (parsers, folds and recursion) is modelled as functions. Lemmas relate each one to an independent characterisation: an optimum, a set, a round trip or an invariant.

Inputs that the programs read from disk are parameters:

- the file contents;
- the manifest directory;
- the shapes of day 12;
- the Dijkstra answer of the maze.

## Model

| member | source | states |
|---|---|---|
| Polygons.RawCrossings | shared/src/polygons.rs:10-16 | the raw crossings are exactly the columns holding the marker, strictly increasing |
| Polygons.RawCrossingsComplete | shared/src/polygons.rs:12-16 | every marker column of the row is among the raw crossings |
| Polygons.RunEnd | shared/src/polygons.rs:25-29 | the run starting at `i` ends at an index whose successor is not the next column |
| Polygons.RunEndIsRun | shared/src/polygons.rs:25-29 | every column of that run is one more than the previous one |
| Polygons.ConsolidateProps | shared/src/polygons.rs:19-39 | the consolidated crossings are raw columns, strictly increasing, none left of the first |
| Polygons.ConsolidateStrict | shared/src/polygons.rs:19-39 | consolidation of an increasing column list stays strictly increasing |
| Polygons.ConsolidateFirst | shared/src/polygons.rs:22-24 | the first consolidated crossing is the start of the first run |
| Polygons.RunIsIncreasing | shared/src/polygons.rs:25-34 | a run rises from its start to its end and the next run starts beyond it |
| Polygons.Crossings | shared/src/polygons.rs:10-39 | the crossings of a row are marker columns in strictly increasing order |
| Polygons.InfillRow | shared/src/polygons.rs:42-61 | the filled row has the length of the row |
| Polygons.InfillGrid | shared/src/polygons.rs:8-62 | the filled grid has the shape of the grid |
| Polygons.FinalBetween | shared/src/polygons.rs:42-61 | even-odd rule: between crossings `i-1` and `i` a cell is filled iff it was a marker or `i` is odd |
| Polygons.InfillChangesOnlyToMarker | shared/src/polygons.rs:3-63 | only non-marker cells change, and each changed cell becomes the marker |
| Polygons.FillsBetweenPairs | shared/src/polygons.rs:42-52 | every column strictly between crossings `2j` and `2j+1` becomes the marker |
| Polygons.KeepsGaps | shared/src/polygons.rs:42-52 | columns between crossings `2j+1` and `2j+2`, and left of the first crossing, keep their value |
| Polygons.FillsTailWhenOdd | shared/src/polygons.rs:55-61 | with an odd number of crossings every column right of the last one is filled |
| Polygons.NoMarkersUnchanged | shared/src/polygons.rs:223-234 | a row without markers is left unchanged |
| Polygons.InfillRowAt | shared/src/polygons.rs:42-61 | each cell of the filled row follows the parity of the crossings left of it |
| Polygons.HorizontalLineExample | shared/src/polygons.rs:205-220 | the row `0 2 0 2 0` fills to `0 2 2 2 0` |
| Polygons.OddMarkersExample | shared/src/polygons.rs:237-250 | the row `0 3 0 0` with a single crossing fills to `0 3 3 3` |
| Polygons.CollectCrossings | shared/src/polygons.rs:12-16 | the collection loop yields the raw crossings of the row |
| Polygons.FindRunEnd | shared/src/polygons.rs:25-29 | the inner loop stops at the end of the run and returns its column |
| Polygons.ConsolidateCrossings | shared/src/polygons.rs:19-39 | the consolidation loop yields the consolidated crossings |
| Polygons.TakeRun | shared/src/polygons.rs:21-38 | one pass appends the crossings of one run and moves strictly forward |
| Polygons.FillSpan | shared/src/polygons.rs:48-50 | the fill loop sets exactly columns `lo..hi` of row `y` to the marker, nothing else changes |
| Polygons.InfillScanline | shared/src/polygons.rs:8-62 | one scanline becomes the filled row of its old value; every other row is unchanged |
| Polygons.InfillPoly | shared/src/polygons.rs:3-63 | the whole grid becomes the row-by-row even-odd fill of its old value |
| FloodFill.Rebase | shared/src/flood_fill.rs:21 | a certificate of the recursive call is renumbered to follow the cells already recorded |
| FloodFill.SealedStays | shared/src/flood_fill.rs:19-21 | a cell that is not `empty` never becomes `empty` again |
| FloodFill.WriteFacts | shared/src/flood_fill.rs:20 | writing `fill_with` over one `empty` cell only fills, and records that cell |
| FloodFill.StepFacts | shared/src/flood_fill.rs:19-22 | one neighbour filled and explored still only fills `empty` cells and keeps changed cells sealed |
| FloodFill.StepCertificate | shared/src/flood_fill.rs:17-22 | every cell written after one neighbour step is reached by a recorded parent chain from the start |
| FloodFill.KeepNonEmpty | shared/src/flood_fill.rs:17-22 | neighbours already handled stay non-`empty` after later recursive calls |
| FloodFill.FinishInv | shared/src/flood_fill.rs:17-23 | once the neighbour loop ends no cross neighbour of the start is `empty` |
| FloodFill.RecursivelyFill | shared/src/flood_fill.rs:11-24 | only `empty` cells change, each to `fill_with`; every cell it fills and the start have no `empty` neighbour; the written cells carry a parent chain to the start |
| FloodFill.FloodFill | shared/src/flood_fill.rs:5-10 | the same facts for the whole fill from `start` |
| FloodFill.FillReachesPath | shared/src/flood_fill.rs:11-24 | completeness: every cell of an `empty` cross walk beginning next to the start is filled |
| FloodFill.CertificatePath | shared/src/flood_fill.rs:11-24 | soundness: every written cell ends an `empty` cross walk of the old grid beginning next to the start |
| FloodFill.FillIsSound | shared/src/flood_fill.rs:5-24 | soundness per cell: any cell the fill changed is reachable from the start through `empty` cells |
| Array2d.Rotated | shared/src/array2d.rs:3-5 | the quarter-turn of a square grid is a square grid of the same size |
| Array2d.Swap | shared/src/array2d.rs:11-14 | exchanging two cells keeps the shape and moves exactly those two values |
| Array2d.CellsUpdate | shared/src/array2d.rs:13-14 | one write trades the old cell value for the new in the multiset of cells |
| Array2d.SwapCells | shared/src/array2d.rs:11-14 | exchanging two cells keeps the multiset of cells |
| Array2d.SwapIn | shared/src/array2d.rs:11-14 | the two reads and two writes exchange the cells |
| Array2d.TransposeRow | shared/src/array2d.rs:10-15 | after row `r` the upper rows are transposed, and the cells are a permutation |
| Array2d.FlipRow | shared/src/array2d.rs:19-24 | after row `r` the upper rows are reversed, and the cells are a permutation |
| Array2d.RotateArray | shared/src/array2d.rs:3-27 | panics iff the grid is not square (`assert_eq!`), leaving it unchanged; otherwise the grid becomes its clockwise quarter-turn; its cells stay a permutation of the old ones |
| Array2d.TransposeStep | shared/src/array2d.rs:11-14 | one swap extends the transposed prefix of row `r` by a column |
| Array2d.FlipStep | shared/src/array2d.rs:20-23 | one swap extends the reversed prefix of row `r` by a column |
| Array2d.RotateFinish | shared/src/array2d.rs:8-26 | transpose then flip of every row is the quarter-turn |
| Array2d.RotatedCell | shared/src/array2d.rs:3-5 | cell `(r, c)` of the rotation is cell `(n-1-c, r)` of the grid |
| Array2d.RotateFourTimes | shared/src/array2d.rs:3-5 | four quarter turns give the grid back |
| Array2d.RotateTwice | shared/src/array2d.rs:3-5 | two quarter turns reverse the grid in both directions |
| ArrayTrim.FindFirst | shared/src/array_trim.rs:5-7 | the first occupied line in the range, or `None` exactly when no line there is occupied |
| ArrayTrim.FindLast | shared/src/array_trim.rs:9-12 | the last occupied line below the bound, or `None` exactly when none is occupied |
| ArrayTrim.Bounds | shared/src/array_trim.rs:5-19 | the four searches fail iff the grid is all background; otherwise they give the bounding box of the marks |
| ArrayTrim.KeepRowSlice | shared/src/array_trim.rs:26-31 | within one row the filter keeps one contiguous slice |
| ArrayTrim.Cut | shared/src/array_trim.rs:24-34 | the cut has the box's height and width and cell `(i, j)` is the grid's cell at the box offset |
| ArrayTrim.CutGrid | shared/src/array_trim.rs:24-34 | the filtered row-major cells rebuilt with the box shape are the cut rows |
| ArrayTrim.TrimArrayToBounds | shared/src/array_trim.rs:3-35 | panics iff every cell is background; otherwise the result is the cut of the bounding box |
| ArrayTrim.TrimKeepsEveryMark | shared/src/array_trim.rs:3-35 | every non-background cell survives the crop at its shifted position |
| ArrayTrim.TrimEdgesOccupied | shared/src/array_trim.rs:3-35 | the first and last rows and columns of the result each hold a non-background cell |
| ArrayTrim.BoundsOfTight | shared/src/array_trim.rs:5-19 | a grid with occupied edge rows and columns is its own bounding box |
| ArrayTrim.TrimTight | shared/src/array_trim.rs:3-35 | trimming a grid that is already tight gives it back |
| ArrayTrim.TrimIdempotent | shared/src/array_trim.rs:3-35 | trimming twice is trimming once |
| DecimalDigitsIter.Digits | shared/src/decimal_digits_iter.rs:1-2 | the digits of `n`, most significant first: `ilog10(n) + 1` of them, each below 10, the first nonzero for `n > 0` |
| DecimalDigitsIter.FromDigitsOfDigits | shared/src/decimal_digits_iter.rs:1-2 | reading the digits back gives the number |
| DecimalDigitsIter.NumDigitsIsILog10 | shared/src/decimal_digits_iter.rs:12 | `ilog10(n) + 1` is the number of decimal digits of `n` |
| DecimalDigitsIter.DigitAt | shared/src/decimal_digits_iter.rs:39-41 | `(number / 10^pos) % 10` is the digit `pos` places from the right |
| DecimalDigitsIter.DecimalDigits.Init | shared/src/decimal_digits_iter.rs:10-13 | a new iterator holds the number, `pos == ilog10 + 1`, and all its digits remain |
| DecimalDigitsIter.DecimalDigits.Len | shared/src/decimal_digits_iter.rs:28-30 | `len` is the number of digits still to come |
| DecimalDigitsIter.DecimalDigits.Next | shared/src/decimal_digits_iter.rs:35-43 | `None` iff `pos` was 0; otherwise the next remaining digit, which is then consumed |
| DecimalDigitsIter.DecimalDigits.Collect | shared/src/decimal_digits_iter.rs:32-43 | draining the iterator yields exactly the remaining digits and leaves `pos == 0` |
| DecimalDigitsIter.FromU64 | shared/src/decimal_digits_iter.rs:8-15 | panics iff the number is 0 (`ilog10`); otherwise an iterator over all its digits |
| DecimalDigitsIter.FromStr | shared/src/decimal_digits_iter.rs:16-24 | panics iff the text is not an unsigned decimal below 2^64 (`parse::<u64>`) or parses to 0; otherwise an iterator over the parsed number |
| DecimalDigitsIter.CollectSpellsNumber | shared/src/decimal_digits_iter.rs:64-79 | a fresh iterator yields `len()` digits that spell the number |
| DecimalDigitsIter.DigitsExamples | shared/src/decimal_digits_iter.rs:50-93 | 9876 gives 9, 8, 7, 6; 123 gives 1, 2, 3; 12345 has 5 digits and 7 has one |
| Maze.Encode | shared/src/maze.rs:19 | `(row * cols + col) as u32`: below `2^32`, and exact when the index fits |
| Maze.Decode | shared/src/maze.rs:51-57 | `(node / cols, node % cols)`: the column is below `cols` and re-encoding gives the node |
| Maze.DecodeEncode | shared/src/maze.rs:19-57 | when `rows * cols` fits in `u32`, decoding an encoded in-bounds cell gives it back |
| Maze.EncodeInjective | shared/src/maze.rs:19 | within such a grid different cells have different nodes |
| Maze.EncodeWraps | shared/src/maze.rs:19 | without the size bound the `u32` cast maps two cells to node 0 |
| Maze.NeighbourEdges | shared/src/maze.rs:28-35 | at most one edge per neighbour |
| Maze.NeighbourEdgesExact | shared/src/maze.rs:28-35 | every edge is a non-wall neighbour with its cost, and every non-wall neighbour has its edge |
| Maze.NodeEdges | shared/src/maze.rs:26-35 | the per-cell loop pushes the edges of the non-wall CROSS neighbours |
| Maze.RowMajorPositions | shared/src/maze.rs:22 | the row-major positions are exactly the in-bounds positions |
| Maze.BuildGraphKeys | shared/src/maze.rs:21-38 | every key of the map is the node of a non-wall cell |
| Maze.BuildGraphValues | shared/src/maze.rs:21-38 | every non-wall cell has its edges under its node |
| Maze.MazeGraphExact | shared/src/maze.rs:21-38 | the keys are exactly the nodes of non-wall cells, each holding that cell's edges |
| Maze.Successors | shared/src/maze.rs:41-42 | a node that is not a key has no successors |
| Maze.EdgeWeight | shared/src/maze.rs:41-45 | the weight dijkstra uses for `v` is that of an edge to `v` |
| Maze.EdgeWeightUnique | shared/src/maze.rs:41-45 | when every edge to `v` has one weight, that is the weight used |
| Maze.MazeShortestPath | shared/src/maze.rs:7-58 | panics iff dijkstra finds no path or the maze has no columns; otherwise the decoded path, as long as dijkstra's |
| Maze.EdgeIsStep | shared/src/maze.rs:21-38 | an edge is a CROSS step between non-wall cells weighted by the cost of the cell entered |
| Maze.StepIsEdge | shared/src/maze.rs:21-38 | a CROSS step between non-wall cells is an edge with that weight |
| Maze.DecodedWalk | shared/src/maze.rs:51-57 | a graph walk from an in-bounds cell decodes to a maze walk |
| Maze.DecodedCost | shared/src/maze.rs:51-57 | decoding keeps the cost of the walk |
| Maze.EncodedWalk | shared/src/maze.rs:19-38 | a maze walk from a non-wall cell encodes to a graph walk of the same cost |
| Maze.PathIsMazeWalk | shared/src/maze.rs:97-131 | the path starts at `start`, ends at `end`, moves one CROSS step at a time and avoids walls |
| Maze.PathIsShortest | shared/src/maze.rs:6 | the returned path costs no more than any maze walk from `start` to `end` |
| Maze.ReachableDoesNotPanic | shared/src/maze.rs:45-48 | when `end` is reachable from a non-wall `start` there is no panic |
| Maze.WallHasNoSuccessors | shared/src/maze.rs:23-42 | a wall cell has no successors |
| Combos.CartesianPowerLength | shared/src/combos.rs:3-11 | the product of `k` copies of the set has `|set|^k` elements |
| Combos.CartesianPowerAt | shared/src/combos.rs:3-11 | element `i` takes entry `t` from the set at the `t`-th base-`|set|` digit of `i` (lexicographic order) |
| Combos.EntriesFromSet | shared/src/combos.rs:3-11 | every combination has `k` entries, each from the set |
| Combos.AllSequencesPresent | shared/src/combos.rs:3-11 | every sequence of `k` entries from the set is in the product |
| Combos.NoRepeats | shared/src/combos.rs:3-11 | with distinct set entries, no combination appears twice |
| Combos.CreateAllPossibleOperationsCloned | shared/src/combos.rs:13-24 | the collected vector is the product, one push per combination in order |
| Combos.ProductExample | shared/src/combos.rs:3-11 | two copies of `[0, 1]` give `[0,0], [0,1], [1,0], [1,1]` |
| Challenges.Code | shared/src/challenges.rs:5-21 | the discriminant is at most 12, and 0 exactly for `Test` |
| Challenges.CodeOfDay | shared/src/challenges.rs:8-19 | day `n` has discriminant `n` |
| Challenges.CodeInjective | shared/src/challenges.rs:7-21 | different days have different discriminants |
| Challenges.QuestionFilePath | shared/src/challenges.rs:23-25 | the path begins with the manifest directory |
| Challenges.Display | shared/src/challenges.rs:27-31 | the text is `Day ` followed by the decimal discriminant |
| Challenges.FileNameInjective | shared/src/challenges.rs:24 | different file names come from different (day, question) pairs |
| Challenges.PathInjective | shared/src/challenges.rs:23-25 | distinct (day, question) pairs have distinct file paths |
| Challenges.DisplayExample | shared/src/challenges.rs:27-31 | `Day12` displays as `Day 12` |
| Challenges.PathExample | shared/src/challenges.rs:23-25 | `Day7` with `Sample` under an empty root is `/../input_data/day7/sample.txt` |
| InputFiles.Tag | shared/src/input_files.rs:9-19 | each tag is nonempty and uses only lower-case letters and `_` |
| InputFiles.TagInjective | shared/src/input_files.rs:11-16 | different questions have different tags |
| Text.Lines | shared/src/read_input_file.rs:9 | `lines()`: no line holds a line feed, and there are no lines iff the text is empty |
| Text.NonEmpty | day1/src/main.rs:18-19 | `filter(|line| !line.is_empty())` keeps exactly the non-empty pieces and never more pieces than it reads (also day2/src/main.rs line 16) |
| Text.Split | day9/src/main.rs:26 | `split`: at least one piece, none holding the separator |
| Text.JoinSplit | day9/src/main.rs:26 | the pieces joined with the separator give the text back |
| Text.SplitWhitespace | day6/src/main.rs:27 | `split_whitespace`: every piece is a non-empty run of non-whitespace |
| Text.SplitWhitespaceOfSpaced | day6/src/main.rs:27 | words joined by single spaces split back into exactly those words |
| Text.ParseUnsigned | day5/src/main.rs:29 | `parse` reads a value iff the text is an optional `+` then at least one digit and nothing else |
| Text.ParseUnsignedBelow | day5/src/main.rs:29 | parsing into an unsigned type succeeds iff the text is a decimal whose value is below the type's limit, giving that value |
| Text.ParseSignedWithin | day6/src/main.rs:29 | parsing into a signed type succeeds iff the text is a signed decimal within the type's range, giving that value |
| Text.DecimalParses | day5/src/main.rs:29 | a number printed in decimal parses back to itself |
| ReadInputFile.QuestionDataLines | shared/src/read_input_file.rs:5-11 | no line holds a line feed, and there are no lines iff the file is empty |
| ReadInputFile.QuestionDataLine | shared/src/read_input_file.rs:13-16 | the whole file, unchanged |
| ReadInputFile.RemoveAll | shared/src/read_input_file.rs:29 | the removed byte no longer occurs and the text does not grow |
| ReadInputFile.Filtered | shared/src/read_input_file.rs:29 | the filtered text has no line feed and no carriage return |
| ReadInputFile.GridFrom | shared/src/read_input_file.rs:31 | building succeeds iff the element count is `rows * cols`, giving the row-major grid of that shape |
| ReadInputFile.ToGridAsWritten | shared/src/read_input_file.rs:25-32 | as written: panics iff the file has no line or the bytes do not fill `lines[0].len()` rows of `lines.len()` columns |
| ReadInputFile.ToGrid | shared/src/read_input_file.rs:25-32 | corrected: panics iff no line or ragged; otherwise one row per line |
| ReadInputFile.DigitValues | shared/src/read_input_file.rs:39-43 | succeeds iff no byte is below `'0'`; each value is the byte minus `'0'` |
| ReadInputFile.LinesOfUnlines | shared/src/read_input_file.rs:5-11 | the lines of a file written line by line are those lines |
| ReadInputFile.FilteredOfUnlines | shared/src/read_input_file.rs:29 | removing the line ends leaves the lines one after another |
| ReadInputFile.GridOfLines | shared/src/read_input_file.rs:25-32 | a file of equally long lines reads back as the grid of its lines |
| ReadInputFile.SquareGridAsWritten | shared/src/read_input_file.rs:31 | for square input the shape written in the source is right |
| ReadInputFile.TransposedShapeExample | shared/src/read_input_file.rs:31 | two lines `abc`/`def` come back as three rows `ab`/`cd`/`ef` |
| ReadInputFile.NumGridPanics | shared/src/read_input_file.rs:34-46 | the digit grid panics iff the byte grid does or some byte is below `'0'` |
| ReadInputFile.NumGridCells | shared/src/read_input_file.rs:34-46 | the digit grid has the byte grid's shape, each cell the byte minus `'0'` |
| ReadInputFile.NumGridAsWrittenPanics | shared/src/read_input_file.rs:34-46 | as written, the digit grid panics iff the as-written byte grid does or some byte is below `'0'`, and otherwise has the same swapped shape |
| ReadInputFile.DigitGridCells | shared/src/read_input_file.rs:39-45 | digit and byte grids built from matching elements agree cell by cell |
| Grid.Get | shared/src/flood_fill.rs:19 | `get` is `Some` iff in bounds, and then the cell |
| Grid.Set | shared/src/flood_fill.rs:20 | `set` succeeds iff in bounds, replacing exactly that cell |
| Grid.Update | shared/src/flood_fill.rs:20 | the grid with one cell replaced and every other cell kept |
| Grid.SetCell | shared/src/flood_fill.rs:20 | the in-place write leaves the grid equal to the updated value |
| Grid.Snapshot | shared/src/array2d.rs:3 | the value of a mutable grid holds its cells |
| Grid.Filled | shared/src/polygons.rs:206 | `filled_with` has the given shape and every cell equal to the value |
| Grid.FromRowMajor | shared/src/array_trim.rs:34 | `from_row_major` succeeds iff the element count is `rows * cols` |
| Grid.FromRowMajorCell | shared/src/array_trim.rs:34 | cell `(i, j)` is element `i * cols + j` |
| Grid.FromRowMajorOfRowMajor | shared/src/array_trim.rs:24-34 | building from a grid's row-major cells gives the grid back |
| Grid.CountUpdate | day4/src/main.rs:30-33 | overwriting one cell holding `v` lowers the count of `v` by one |
| Grid.Shift | shared/src/flood_fill.rs:17 | a position moved by an offset, `Some` iff it stays inside the grid |
| Grid.ShiftAllMember | shared/src/flood_fill.rs:17 | a position is produced iff it is in bounds and its offset is listed |
| Grid.AdjacentPositions | shared/src/flood_fill.rs:17 | exactly the in-bounds positions one offset of the kind away |
| Grid.AdjacentPositionsDistinct | shared/src/flood_fill.rs:17 | no position is listed twice |
| Grid.CrossOffsetIsStep | shared/src/maze.rs:116-127 | a CROSS offset is a step of one in exactly one coordinate |
| Grid.AllOffsetIsKingStep | day4/src/main.rs:48 | an ALL offset is a step of at most one in each coordinate, not zero |
| Grid.MoveCursor | day7/src/main.rs:42-44 | the neighbour in a direction, `Some` iff it lies inside the grid |
| Day1.ParseI32 | day1/src/main.rs:22 | `parse::<i32>` succeeds iff the text is a signed decimal in the `i32` range, giving that value |
| Day1.LineDelta | day1/src/main.rs:21-27 | a converted line is a distance, negated for `L`; only a non-`L` line can give `i32::MIN` |
| Day1.LinesToDeltas | day1/src/main.rs:15-30 | panics iff some non-empty line fails to convert; otherwise one delta per non-empty line, in order |
| Day1.LineDeltaOfInstruction | day1/src/main.rs:21-27 | an instruction written from a delta reads back as that delta |
| Day1.NonLeftIsRight | day1/src/main.rs:23-27 | any first letter other than `L` keeps the distance as it is |
| Day1.LinesToDeltasOfInstructions | day1/src/main.rs:15-30 | written instructions read back as the deltas they were written from |
| Day1.Turn | day1/src/main.rs:38-42 | the dial after one turn is in `0..100` and congruent to dial plus delta modulo 100 |
| Day1.DialAfter | day1/src/main.rs:37-46 | the dial stays in `0..100` |
| Day1.DialAfterIsSum | day1/src/main.rs:37-46 | after turns the dial is the start plus all deltas, modulo 100 |
| Day1.PartA | day1/src/main.rs:31-50 | panics iff parsing does; otherwise counts the turns that leave the dial on 0 |
| Day1.TurnDial | day1/src/main.rs:38-42 | the add / add-100 loop / remainder gives the turned dial |
| Day1.StepB | day1/src/main.rs:58-73 | a `part_b` step moves the dial exactly as `part_a`'s turn does |
| Day1.RemainderTurn | day1/src/main.rs:58-67 | applying only the truncated remainder reaches the same dial as the whole delta |
| Day1.HundredRem | day1/src/main.rs:58-59 | the delta is 100 times its truncated quotient plus its remainder, and the remainder lies in `(-100, 100)` |
| Day1.DialB | day1/src/main.rs:57-74 | the `part_b` dial stays in `0..100` |
| Day1.DialsAgree | day1/src/main.rs:37-74 | both parts move the dial the same way |
| Day1.RemainderSign | day1/src/main.rs:58-59 | the truncated remainder has the sign of the delta |
| Day1.PartB | day1/src/main.rs:51-78 | panics iff parsing does; otherwise the count of the as-written step |
| Day1.HitsRight | day1/src/main.rs:58-65 | a right turn by `n` passes the multiples of 100 in `(dial, dial + n]` |
| Day1.HitsLeft | day1/src/main.rs:58-73 | a left turn by `m` passes the multiples of 100 in `[dial - m, dial)` |
| Day1.StepBCountsHits | day1/src/main.rs:58-73 | the step counts exactly the clicks onto 0, plus one extra when the dial starts on 0 and the delta is a multiple of 100 |
| Day1.OvercountExample | day1/src/main.rs:68-73 | from 50, `L50` then `R100` passes 0 twice, yet the count as written is 3 |
| Day1.StepBFixed | day1/src/main.rs:58-73 | the corrected step moves the dial the same way and counts exactly the clicks onto 0 |
| Day1.ZerosBFixedCountsHits | day1/src/main.rs:51-78 | the corrected counter counts every click onto 0 over all turns |
| Day2.ParseU64 | day2/src/main.rs:6-7 | `parse::<u64>` succeeds iff the text is an unsigned decimal below `2^64` |
| Day2.ParsePair | day2/src/main.rs:4-9 | a piece without `-` panics; parsed bounds are `u64` values |
| Day2.GetPairs | day2/src/main.rs:11-19 | one range per non-empty comma-separated piece |
| Day2.ParsePairOfText | day2/src/main.rs:4-9 | a range written as `lo-hi` parses back to itself |
| Day2.GetPairsOfText | day2/src/main.rs:11-19 | a comma-separated list of written ranges reads back as those ranges |
| Day2.Cycle | day2/src/main.rs:75 | `cycle().take(n)` has `n` entries repeating the segment |
| Day2.RepeatsWithIsPeriodic | day2/src/main.rs:66-79 | a segment length is accepted iff it divides the length and the spelling has that period |
| Day2.DoubledIsRepeated | day2/src/main.rs:41-79 | every ID part A counts is counted by part B |
| Day2.SingleDigitNotRepeated | day2/src/main.rs:66 | a single digit is never a repetition |
| Day2.Examples | day2/src/main.rs:43-64 | 55 and 6464 are doubled, 101 is not; 111 and 6464 are repetitions |
| Day2.RangeALeB | day2/src/main.rs:40-81 | over one range the part A sum never exceeds the part B sum |
| Day2.PartALePartB | day2/src/main.rs:33-85 | on the same ranges part A never exceeds part B |
| Day2.PartA | day2/src/main.rs:33-54 | panics iff parsing fails or some range starts at 0 (`ilog10`); otherwise the sum of the doubled IDs |
| Day2.SumInvalidA | day2/src/main.rs:37-53 | the loops sum exactly the doubled IDs of every range |
| Day2.IsDoubledCheck | day2/src/main.rs:41-47 | the digit-count test and the half comparison decide exactly whether the ID is doubled |
| Day2.IsRepeatedScan | day2/src/main.rs:66-80 | the segment loop with its `break` finds a segment iff the ID is a repetition |
| Day2.PartB | day2/src/main.rs:55-85 | panics iff parsing fails; otherwise the sum of the repeated IDs |
| Day2.SumInvalidB | day2/src/main.rs:58-84 | the loops sum exactly the repeated IDs of every range |
| Day3.DigitsOf | day3/src/main.rs:24 | `to_digit(10).unwrap()` succeeds iff every character is a digit, giving their values in order |
| Day3.FirstMaxIndex | day3/src/main.rs:26-32 | the index found lies in the window |
| Day3.FirstMaxIndexIsFirstMax | day3/src/main.rs:26-32 | `first_max_by_key` finds a maximum of the window, and every index before it holds a smaller digit |
| Day3.LastMaxIndex | day3/src/main.rs:34-40 | the index found lies in the window |
| Day3.LastMaxIndexIsLastMax | day3/src/main.rs:34-40 | `max_by_key` finds a maximum, and every index after it holds a smaller digit |
| Day3.PickIdx | day3/src/main.rs:60-82 | the greedy choice picks `k` indices |
| Day3.PickIdxIsIndexSeq | day3/src/main.rs:60-82 | the greedy picks are strictly increasing indices of the line |
| Day3.GreedyIsBest | day3/src/main.rs:59-82 | no choice of `k` digits in order shows a larger number than the greedy one |
| Day3.LineA | day3/src/main.rs:24-41 | a line value exists iff the line has at least two digits (`len() - 1` underflows, `unwrap` fails) |
| Day3.LineAIsGreedy | day3/src/main.rs:26-41 | part A's pick is the greedy choice of two digits |
| Day3.SameMaximum | day3/src/main.rs:26-40 | the first and the last maximum of a window hold the same digit |
| Day3.LineAIsBest | day3/src/main.rs:20-41 | the line value is the largest `10 * d_i + d_j` with `i < j`, and some pair reaches it |
| Day3.PartA | day3/src/main.rs:17-49 | the sum of the line values, panicking on the first line without one |
| Day3.GreedyNumberIsValue | day3/src/main.rs:67-82 | appending the greedy digits shifts the number left by `k` places and adds the number they show |
| Day3.LineBAsWritten | day3/src/main.rs:57-82 | as written: a value exists iff the line has at least 13 digits |
| Day3.PickIdxAsWritten | day3/src/main.rs:60-82 | as written: 12 indices are picked |
| Day3.PickIdxAsWrittenIsIndexSeq | day3/src/main.rs:60-82 | as written the picks are increasing indices, the first below `len - 12` |
| Day3.LineBAsWrittenShowsPicks | day3/src/main.rs:60-82 | the value as written is the number shown by those picks |
| Day3.GreedyStep | day3/src/main.rs:71-81 | one pass takes the first maximum of the window that leaves room for the digits still to come |
| Day3.LineB | day3/src/main.rs:57-82 | the line loop computes the value as written |
| Day3.PickRest | day3/src/main.rs:69-82 | the `0..11` loop appends the greedy picks after the first one |
| Day3.PartB | day3/src/main.rs:50-88 | the sum of the as-written line values, panicking on the first line without one |
| Day3.LineBFixed | day3/src/main.rs:60-65 | corrected: a value exists iff the line has at least 12 digits |
| Day3.LineBFixedPicks | day3/src/main.rs:59-82 | the corrected value is shown by the greedy choice of 12 digits |
| Day3.LineBFixedIsBest | day3/src/main.rs:59-82 | the corrected value is the largest number any choice of 12 digits shows |
| Day3.FirstWindowTooShort | day3/src/main.rs:63 | on any 13-digit line whose second digit beats its first (`1999999999999`), another choice of 12 digits shows more than the value as written |
| Day4.CountRolls | day4/src/main.rs:47-52 | the count is at most the number of positions examined |
| Day4.NeighbourRollsIsRollNeighbours | day4/src/main.rs:47-52 | the count for a cell is the number of its 8-neighbours holding a roll |
| Day4.AccessibleIsValid | day4/src/main.rs:41-59 | the list is in row-major order, without repeats, and holds exactly the rolls with fewer than four roll neighbours |
| Day4.CountNeighbourRolls | day4/src/main.rs:47-52 | the inner loop counts the roll neighbours of the cell |
| Day4.CheckCell | day4/src/main.rs:45-56 | the test applied to one cell decides whether it is an accessible roll |
| Day4.FindValidOnes | day4/src/main.rs:41-59 | the loops return the accessible rolls in row-major order |
| Day4.PartA | day4/src/main.rs:17-22 | the answer is the number of accessible rolls |
| Day4.ClearAll | day4/src/main.rs:32-33 | exactly the listed cells become `.`, the others are kept |
| Day4.ClearAllCount | day4/src/main.rs:32-36 | clearing distinct rolls lowers the roll count by their number |
| Day4.RoundCells | day4/src/main.rs:31-36 | a round changes exactly the accessible rolls, into `.` |
| Day4.RoundCount | day4/src/main.rs:31-36 | a round removes as many rolls as it found accessible |
| Day4.ClearPositions | day4/src/main.rs:32-36 | the inner loop clears the found cells, counts them and notes whether any were found |
| Day4.StableIffNoneAccessible | day4/src/main.rs:30-37 | no roll is accessible exactly when the grid is stable |
| Day4.RoundStep | day4/src/main.rs:30-37 | a round only clears rolls, and removes as many as it found |
| Day4.PartB | day4/src/main.rs:24-39 | the grid ends as `Peel` of the input (rounds until no roll is accessible); the count is the number of rolls removed; the final grid is stable and differs only by cleared rolls |
| Day4.PeelFacts | day4/src/main.rs:30-37 | repeating rounds until none is accessible ends on a stable grid that differs from the input only by cleared rolls |
| Day4.PeelKeepsStable | day4/src/main.rs:30-37 | every stable set of rolls inside the input survives, so the result is the largest stable grid inside the input |
| Day4.CountRollsMono | day4/src/main.rs:47-52 | with fewer rolls around, a cell never counts more roll neighbours |
| Day5.ParseRange | day5/src/main.rs:21-27 | a line without `-` panics; otherwise it parses iff both sides of the first `-` are unsigned decimals below 2^64, giving the range between them |
| Day5.ParseId | day5/src/main.rs:29 | an id line parses iff it is an unsigned decimal below 2^64 (a 64-bit `usize`), giving its value |
| Day5.RangeLineRoundTrip | day5/src/main.rs:21-27 | a range printed as `a-b` parses back to itself |
| Day5.InventoryIsParsedLines | day5/src/main.rs:20-31 | every line with `-` is read as a range and every other non-empty line as an id; panics iff one does not parse |
| Day5.InventoryPanicSticks | day5/src/main.rs:20-31 | once a prefix of the lines panics, the whole parse panics with the same message |
| Day5.ParseInventory | day5/src/main.rs:20-31 | the parsing loop of `part_a` yields the inventory of the lines |
| Day5.RangesAreParsedLines | day5/src/main.rs:49-58 | `part_b` reads the same ranges as `part_a` and ignores id lines, even unparsable ones |
| Day5.RangesPanicSticks | day5/src/main.rs:49-58 | once a prefix of the lines panics, so does the whole range parse |
| Day5.ParseRanges | day5/src/main.rs:49-58 | the parsing loop of `part_b` yields the ranges of the lines |
| Day5.FreshMultiplicity | day5/src/main.rs:33-41 | each id entry is kept once if some range holds it and dropped otherwise |
| Day5.IsFresh | day5/src/main.rs:35-40 | the range scan with its `break` finds a range iff one holds the id |
| Day5.FreshIngredients | day5/src/main.rs:33-41 | the loop keeps exactly the fresh ids, in order |
| Day5.PartA | day5/src/main.rs:15-43 | panics iff parsing does; otherwise the number of fresh id entries |
| Day5.InsertByStart | day5/src/main.rs:63 | inserting keeps the list sorted by start and adds exactly the new range |
| Day5.SortByStart | day5/src/main.rs:63 | the sorted list is ordered by start and a permutation of the ranges |
| Day5.InsertByStartStable | day5/src/main.rs:63 | inserting keeps the ranges that share a start in their order and puts the new range after them |
| Day5.SortByStartStable | day5/src/main.rs:63 | the sort is stable: the ranges with any one start come out in the order they went in |
| Day5.Hull | day5/src/main.rs:80 | the hull starts at the smaller start and ends at the larger end of the two ranges |
| Day5.FirstOverlap | day5/src/main.rs:67-85 | the first merged range the new range overlaps, none before it overlapping |
| Day5.MergeIntoShape | day5/src/main.rs:67-85 | after sorting, a range overlapping the last merged range replaces it by their hull, and is pushed otherwise |
| Day5.MergeAll | day5/src/main.rs:65-89 | merging never yields more ranges than it reads |
| Day5.MergeRange | day5/src/main.rs:66-88 | one pass rewrites the first overlapping range to the hull or pushes the new range |
| Day5.MergeRanges | day5/src/main.rs:65-89 | the merge loop yields the merge of the sorted ranges |
| Day5.RangeSet | day5/src/main.rs:94 | the ids of a range are exactly those between its bounds |
| Day5.CoveredMembers | day5/src/main.rs:36 | an id is covered iff some range holds it |
| Day5.OnlyLastOverlaps | day5/src/main.rs:63-85 | after sorting, a new range can only overlap the last merged range |
| Day5.OverlapsShareId | day5/src/main.rs:77-79 | for a range starting no earlier than the existing one, the start-or-end test holds iff the two share an id |
| Day5.HullCovers | day5/src/main.rs:80 | two overlapping ranges cover exactly what their hull covers |
| Day5.MergeIntoSorted | day5/src/main.rs:66-88 | merging a range no earlier than the merged ones keeps them disjoint and adds exactly its ids |
| Day5.MergeAllDisjoint | day5/src/main.rs:59-89 | the merged ranges are pairwise disjoint |
| Day5.MergeAllCovers | day5/src/main.rs:59-89 | the merged ranges cover exactly the ids the input ranges cover |
| Day5.SumSizes | day5/src/main.rs:92-95 | the size sum succeeds iff no range ends below its start (`usize` underflow) |
| Day5.SumSizesOfDisjoint | day5/src/main.rs:92-95 | over disjoint ranges the sum of sizes is the number of ids covered |
| Day5.BackwardsRangePanics | day5/src/main.rs:94 | a range ending below its start makes `part_b` panic |
| Day5.TotalFreshIsCoveredCount | day5/src/main.rs:45-96 | with every range well formed, `part_b` is the number of ids some range covers |
| Day5.SameCovered | day5/src/main.rs:63 | reordering the ranges does not change the ids covered |
| Day5.PartB | day5/src/main.rs:45-96 | the method computes the `part_b` total of the lines |
| Day6.WordOps | day6/src/main.rs:40-45 | one operator per word, each read as the word's operator |
| Day6.ByteOps | day6/src/main.rs:80-85 | one operator per byte, each read as the byte's operator |
| Day6.TotalZip | day6/src/main.rs:40-80 | `zip` stops at the shorter list: extra operators or extra number groups are ignored |
| Day6.TotalSnoc | day6/src/main.rs:39-46 | one more matched pair adds its sum or product |
| Day6.TotalOfUnknownOps | day6/src/main.rs:44-84 | a worksheet whose operators are all unknown totals 0 |
| Day6.Evaluate | day6/src/main.rs:39-87 | the final loop computes the total of the zipped operators and groups |
| Day6.ParseWord | day6/src/main.rs:29-31 | a word parses iff it is a signed decimal within `i64`, giving its value |
| Day6.AddRowLength | day6/src/main.rs:27-33 | after a row there are as many columns as the longer of the old columns and the row |
| Day6.AddRowAt | day6/src/main.rs:27-33 | column `i` grows by the row's `i`-th number, when the row has one |
| Day6.ColumnsAreColumnwise | day6/src/main.rs:21-35 | there is one column per position up to the widest row, column `i` holding the `i`-th numbers of the rows in order |
| Day6.GatherMeaning | day6/src/main.rs:21-35 | gathering panics iff some number line has an unparsable word; the operators are those of the last `*` line and the inputs the columns of the number lines |
| Day6.GatherPanicSticks | day6/src/main.rs:29-31 | once a prefix of the lines panics, gathering all lines panics |
| Day6.AddLine | day6/src/main.rs:27-33 | the `enumerate` loop panics iff a word does not parse, and otherwise adds the row to the columns |
| Day6.PartA | day6/src/main.rs:15-48 | panics iff gathering does; otherwise the total of the operators zipped with the columns |
| Day6Sample.SamplePartA | day6/src/main.rs:95-97 | on the published example worksheet the `part_a` specification gives 4277556, the total the test expects |
| Day6.CellStepWellScanned | day6/src/main.rs:65-76 | one cell keeps the scan well shaped: one operator per closed problem, closed problems non-empty |
| Day6.ScanColumnsWellScanned | day6/src/main.rs:60-78 | every stage of the column scan is well shaped, so the final `zip` pairs every operator with its problem |
| Day6.ColumnBytes | day6/src/main.rs:62-63 | the bytes of a column, one per row |
| Day6.DigitsAccumulate | day6/src/main.rs:65-67 | a run of digits down a column appends their decimal value to the current value |
| Day6.BlankColumnNoop | day6/src/main.rs:74-76 | a separator column scanned from 0 changes nothing |
| Day6.ScanColumn | day6/src/main.rs:61-77 | the inner loop scans one column down all rows |
| Day6.PartB | day6/src/main.rs:50-88 | the columns scanned right to left, then totalled |
| Day6Sample.SamplePartB | day6/src/main.rs:100-102 | on the intended 4×15 grid (one row per line), the published example worksheet gives 3263827 under the `part_b` specification, the total the test expects |
| Day7.StepCells | day7/src/main.rs:29-57 | one visit keeps the row length |
| Day7.StepPartial | day7/src/main.rs:29-57 | one visit extends the drawn prefix by a column, and counts a split exactly at a `^` below `|` |
| Day7.ScanRowPrefixPartial | day7/src/main.rs:28-59 | after `n` columns the row is the picture after `n` visits and the count its hits so far |
| Day7.ScanRowMeaning | day7/src/main.rs:28-59 | each drawn cell becomes `|` exactly when the lighting rule holds and keeps its value otherwise; the count is the splitters hit from above |
| Day7.Propagate | day7/src/main.rs:26-60 | the outer loop keeps the grid's shape |
| Day7.PropagateRows | day7/src/main.rs:26-60 | row 0 and rows not yet reached are unchanged, each drawn row is the scan of the row above it, and the count adds up their hits |
| Day7.PartAMeaning | day7/src/main.rs:20-64 | row 0 is unchanged, every later cell is `|` exactly when lit from the finished row above, and the count is the splitters hit |
| Day7.PartAOnlyDrawsBeams | day7/src/main.rs:31-56 | part A only ever turns `.` into `|` |
| Day7.VisitCell | day7/src/main.rs:29-57 | one in-place visit performs the step on the row and reports whether it split |
| Day7.DrawRow | day7/src/main.rs:28-59 | the inner loop draws the row from the row above and counts its splits |
| Day7.PartA | day7/src/main.rs:20-64 | the grid ends as the finished picture and the count is its number of splits |
| Day7.StartColumn | day7/src/main.rs:115-117 | the first column of row 0 holding `S`, or none when there is none |
| Day7.PartB | day7/src/main.rs:112-119 | panics iff the grid has no row or row 0 holds no `S` (the `find(..).unwrap()`); otherwise the number of timelines of the beam from the first `S` |
| Day7.ExploreGridBound | day7/src/main.rs:66-87 | a beam at row `r` has at most `2^(rows-1-r)` timelines |
| Day7.ExploreSplitterBound | day7/src/main.rs:88-110 | a splitter at row `r` yields at most twice that |
| Day7.StraightDown | day7/src/main.rs:72-82 | a beam with only `.` below it leaves the grid in one timeline |
| Day7.BlockedSplitter | day7/src/main.rs:94-109 | a splitter whose side cells are missing or not `.` ends both beams |
| Day7.TimelinesCount | day7/src/main.rs:66-87 | `recursively_explore_grid` returns the number of listed timelines of the beam |
| Day7.SideTimelinesCount | day7/src/main.rs:88-110 | `recursively_explore_splitter` returns the number of timelines of its two side beams |
| Day7.TimelinesSound | day7/src/main.rs:66-110 | every listed timeline is a real beam path: down onto `.`, or off a `^` onto a `.` beside it, until it leaves the last row |
| Day7.TimelinesComplete | day7/src/main.rs:66-110 | every such beam path is listed |
| Day7.TimelinesDistinct | day7/src/main.rs:66-110 | no timeline is listed twice |
| Day7.ExploreGridCountsTimelines | day7/src/main.rs:66-87 | the search counts exactly the distinct beam paths from the start to the bottom |
| Day9.Area | day9/src/main.rs:37-39 | the rectangle of two corner tiles, both included, has area at least 1 |
| Day9.AreaSymmetric | day9/src/main.rs:37-39 | the corners can be given in either order |
| Day9.ParsePoint | day9/src/main.rs:26-29 | a line without `,` panics; otherwise it parses iff it has a second `,` field and both fields are decimals within the integer type (`i128` in part A, `i64` in part B), giving the point |
| Day9.ParsePointOfText | day9/src/main.rs:26-29 | a point printed as `x,y` parses back |
| Day9.UnorderedPairs | day9/src/main.rs:32 | there are no pairs exactly when there are no points |
| Day9.UnorderedPairsMember | day9/src/main.rs:32 | the pairs are exactly the selections of two points, the first not after the second |
| Day9.MaxAreaIsLargest | day9/src/main.rs:34-45 | the running maximum is an area of some pair and no pair exceeds it |
| Day9.PartA | day9/src/main.rs:20-50 | panics iff parsing fails or there are no points; otherwise the largest pair area |
| Day9.LargestOverPoints | day9/src/main.rs:20-50 | the answer bounds the rectangle of every two points and is the rectangle of some two |
| Day9.Tiles | day9/src/main.rs:65 | one tile per point, row first |
| Day9.MaxRow | day9/src/main.rs:55-64 | `max_y` bounds every row and is 0 or some tile's row |
| Day9.MaxCol | day9/src/main.rs:55-64 | `max_x` bounds every column and is 0 or some tile's column |
| Day9.TilesFit | day9/src/main.rs:69 | every tile with non-negative coordinates lies in the `(max_y + 2) x (max_x + 2)` grid |
| Day9.MarkRowCell | day9/src/main.rs:76-78 | marking a row run sets exactly those cells to `#` |
| Day9.MarkColCell | day9/src/main.rs:80-82 | marking a column run sets exactly those cells to `#` |
| Day9.DrawEdgeCell | day9/src/main.rs:72-86 | an edge sets exactly the cells of its segment to `#` |
| Day9.DrawOutlineCell | day9/src/main.rs:71-87 | after `k` edges a cell is `#` iff one of them draws it; others keep their value |
| Day9.SetRowRun | day9/src/main.rs:76-78 | the loop marks the row run in place |
| Day9.SetColRun | day9/src/main.rs:80-82 | the loop marks the column run in place |
| Day9.JoinTiles | day9/src/main.rs:72-86 | one pass of the edge loop draws one edge in place |
| Day9.DrawEdges | day9/src/main.rs:71-87 | the edge loop joins every tile to the next, the last to the first |
| Day9.FillStep | day9/src/main.rs:95-127 | one visit keeps the row length |
| Day9.SweepOnlyMarksEmpty | day9/src/main.rs:111-127 | the sweep only turns `.` into `O` |
| Day9.FillOnlyMarksEmpty | day9/src/main.rs:91-129 | the fill pass only turns `.` into `O`; a `#` stays |
| Day9.SweepOutside | day9/src/main.rs:92-125 | before the first `#` of a row the sweep is outside the polygon |
| Day9.FillRowWithoutEdge | day9/src/main.rs:91-129 | a row without `#` is left as it is |
| Day9.FillCell | day9/src/main.rs:95-127 | one in-place visit performs the sweep step and updates `in_poly` |
| Day9.FillInterior | day9/src/main.rs:91-129 | the fill loop leaves the grid as the row-by-row sweep of its old value |
| Day9.PairSizeIfValid | day9/src/main.rs:166-202 | `Some` iff no cell of the rectangle is `.`, and then the rectangle's area |
| Day9.Enumerated | day9/src/main.rs:134-144 | one entry per pair |
| Day9.InsertByArea | day9/src/main.rs:147 | inserting keeps the entries by descending area and adds exactly the new one |
| Day9.SortByArea | day9/src/main.rs:147 | sorted with largest area first, and a permutation of the entries |
| Day9.EntryOfSorted | day9/src/main.rs:134-147 | every sorted entry names a pair and carries its area |
| Day9.SortedHasEntry | day9/src/main.rs:134-147 | every pair has its entry among the sorted ones |
| Day9.FirstCoveredIsBest | day9/src/main.rs:151-157 | the first covered pair met in descending area order is a largest covered pair |
| Day9.NoneCovered | day9/src/main.rs:162 | when no pair is covered, 0 is right |
| Day9.PartBGrid | day9/src/main.rs:69-129 | the searched grid has `max_y + 2` rows and `max_x + 2` columns |
| Day9.PartBGridCell | day9/src/main.rs:69-129 | its `#` cells are exactly the outline; every other cell is `.` or `O` |
| Day9.BuildGrid | day9/src/main.rs:69-129 | the grid is allocated full of `.`, outlined, and filled |
| Day9.Search | day9/src/main.rs:149-162 | the loop returns the area of a largest covered pair, or 0 when none is covered |
| Day9.PartB | day9/src/main.rs:52-164 | panics iff parsing fails or a tile lies off the grid; otherwise the largest pair area with no `.` inside |
| Day10.LightMatrix | day10/src/main.rs:79-94 | the lights' augmented matrix has one row per light and one column per button plus the target |
| Day10.VoltageMatrix | day10/src/main.rs:110-135 | the counters' augmented matrix has one row per counter and one column per button plus the target |
| Day10.MarkButtons | day10/src/main.rs:83-89 | exactly the cells `(idx, c)` with `idx` listed by button `c` become 1; every other cell is kept |
| Day10.BuildLightMatrix | day10/src/main.rs:79-94 | the allocated matrix holds the lights' augmented matrix |
| Day10.BuildVoltageMatrix | day10/src/main.rs:110-135 | the allocated matrix holds the counters' augmented matrix |
| Day10.Xor | day10/src/main.rs:179 | on 0 and 1 the signed `^` is exclusive or |
| Day10.FindPivot | day10/src/main.rs:164 | a found pivot row lies in the range and is nonzero in the column |
| Day10.FindPivotSkips | day10/src/main.rs:164 | every row the `find` passes over is zero in the column |
| Day10.Swapped | day10/src/main.rs:166-172 | the two rows are exchanged |
| Day10.ClearGf2 | day10/src/main.rs:174-182 | the GF(2) step keeps the matrix shape |
| Day10.ClearInt | day10/src/main.rs:184-194 | the integer step keeps the matrix shape |
| Day10.ElimStep | day10/src/main.rs:159-199 | one column of elimination keeps the matrix shape |
| Day10.EliminateShape | day10/src/main.rs:147-203 | elimination keeps the shape, and the pivot rows are rows of the matrix |
| Day10.Eliminated | day10/src/main.rs:147-203 | the elimination over every coefficient column keeps the shape |
| Day10.EliminateSaturated | day10/src/main.rs:159-161 | once every row is a pivot row, further columns change nothing, so the `break` is sound |
| Day10.SwapRows | day10/src/main.rs:166-172 | the swap loop exchanges the two rows in place |
| Day10.ClearColumnGf2 | day10/src/main.rs:174-182 | the GF(2) loop performs the GF(2) step in place |
| Day10.ClearColumnInt | day10/src/main.rs:184-194 | the integer loop performs the fraction-free step in place |
| Day10.EliminateColumn | day10/src/main.rs:163-199 | one column in place: pivot found, swapped up, column cleared, pivot recorded |
| Day10.PerformElimination | day10/src/main.rs:147-203 | the matrix becomes the eliminated matrix and the pivot map is the recorded pivots |
| Day10.EliminateColumns | day10/src/main.rs:158-200 | the column loop leaves the state of the elimination over every coefficient column |
| Day10.PivotColumnsMembers | day10/src/main.rs:197 | every pivot column below `n` is listed |
| Day10.ClearGf2Facts | day10/src/main.rs:174-182 | the GF(2) step keeps earlier columns and the pivot row, keeps the matrix binary, and zeroes the column outside the pivot row |
| Day10.ClearIntFacts | day10/src/main.rs:184-194 | the integer step keeps earlier columns and rows up to the pivot, and zeroes the column below it |
| Day10.SwapKeepsEchelon | day10/src/main.rs:166-172 | swapping a later row up into the next pivot row keeps the echelon form |
| Day10.ClearGf2KeepsEchelon | day10/src/main.rs:174-182 | the GF(2) step extends the reduced echelon form by one pivot column |
| Day10.ClearIntKeepsEchelon | day10/src/main.rs:184-194 | the integer step extends the echelon form by one pivot column |
| Day10.ElimStepFacts | day10/src/main.rs:158-199 | one column of elimination keeps the elimination invariant |
| Day10.EliminateFacts | day10/src/main.rs:147-203 | after `n` columns the pivot map is well formed, its columns in row order, and the matrix in echelon form (reduced over GF(2)) |
| Day10.CheckConsistency | day10/src/main.rs:205-215 | panics iff some row has all coefficients zero and a nonzero right-hand side |
| Day10.ContradictionAfterElimination | day10/src/main.rs:205-215 | after elimination the check panics iff some row below the pivot rows has a nonzero right-hand side |
| Day10.FreeVars | day10/src/main.rs:223 | the free variables are exactly the non-pivot columns below the button count |
| Day10.FreeVarsIncreasing | day10/src/main.rs:223 | they are listed in increasing order, so none twice |
| Day10.FreeVariables | day10/src/main.rs:223 | the filter loop yields the free variables |
| Day10.PivotOrderByRow | day10/src/main.rs:240-241 | sorting the pivot map by row lists every pivot column once, rows increasing |
| Day10.Bit | day10/src/main.rs:234 | `(i >> b) & 1` is 0 or 1 |
| Day10.Parity | day10/src/main.rs:244-249 | the accumulated parity is 0 or 1 |
| Day10.AsUsize | day10/src/main.rs:253 | `v as usize` is below `2^64` and is `v` when `v` is in range |
| Day10.MinGf2IsLeast | day10/src/main.rs:225-257 | the minimum is at most `usize::MAX` and every candidate's presses, and is `usize::MAX` or some candidate's presses |
| Day10.MinGf2Next | day10/src/main.rs:230-256 | one more assignment lowers the running minimum to its presses when they are smaller |
| Day10.MinGf2IsLower | day10/src/main.rs:225-257 | the minimum is at most `usize::MAX` and every candidate's presses |
| Day10.MinGf2Attained | day10/src/main.rs:225-257 | the minimum is `usize::MAX` or the presses of some candidate |
| Day10.AssignFreeBits | day10/src/main.rs:233-237 | the loop sets `x[free[b]] = 1` for each set bit `b` of `i` |
| Day10.RowParity | day10/src/main.rs:244-249 | the loop yields the parity of one back-substitution row |
| Day10.BackSubstituteGf2 | day10/src/main.rs:243-251 | the loop back-substitutes over GF(2), last pivot row first |
| Day10.SumPresses | day10/src/main.rs:253 | the loop sums the entries as `usize` |
| Day10.FindMinimumGf2 | day10/src/main.rs:217-258 | the result is the least presses over all `2^f` assignments of the `f` free variables |
| Day10.CandidatePresses | day10/src/main.rs:230-253 | one pass computes the presses of assignment `i` |
| Day10.Evaluate | day10/src/main.rs:318-362 | an evaluated total is below `i64::MAX` |
| Day10.Solution | day10/src/main.rs:326-354 | a back-substituted solution has one entry per button |
| Day10.BackSubIntSolves | day10/src/main.rs:340-354 | a successful back-substitution satisfies every pivot row, is nonnegative in the solved columns and keeps the rest |
| Day10.BackSubIntRows | day10/src/main.rs:340-354 | a successful back-substitution satisfies every pivot row |
| Day10.BackSubIntKeeps | day10/src/main.rs:340-354 | a successful back-substitution keeps every value outside the solved pivot columns |
| Day10.BackSubIntNonnegative | day10/src/main.rs:340-354 | a successful back-substitution is nonnegative in every solved pivot column |
| Day10.SolutionSolves | day10/src/main.rs:318-354 | the derived presses satisfy every pivot row of the eliminated system |
| Day10.SolutionNonnegative | day10/src/main.rs:329-354 | with nonnegative free values the derived presses are nonnegative and keep those values |
| Day10.SolutionSolvesAll | day10/src/main.rs:205-354 | with no contradiction the derived presses satisfy every row |
| Day10.EliminatedSolution | day10/src/main.rs:147-354 | every assignment that evaluates is a real nonnegative solution of the eliminated system |
| Day10.VoltageSolution | day10/src/main.rs:106-145 | when the check passes, every evaluating assignment is a real solution of the counters' system |
| Day10.EvaluateSum | day10/src/main.rs:356-361 | an evaluated total is the sum of the derived presses |
| Day10.RowToPivotCol | day10/src/main.rs:334-337 | the inverted map sends pivot row `r` to its pivot column and no other |
| Day10.SetFreeValues | day10/src/main.rs:326-331 | the loop sets each free column to its value over zeros |
| Day10.RowRhs | day10/src/main.rs:344-347 | the loop computes the right-hand side less the later columns |
| Day10.BackSubstituteInt | day10/src/main.rs:340-354 | the loop back-substitutes over the integers, last pivot row first |
| Day10.SumValues | day10/src/main.rs:356 | the loop computes the sum |
| Day10.EvaluateSolution | day10/src/main.rs:318-362 | the method computes `evaluate_solution` |
| Day10.SearchIntegerSolutions | day10/src/main.rs:285-316 | the recursion keeps the values before `idx` and returns the search from them |
| Day10.FindMinimumInteger | day10/src/main.rs:260-283 | the result is the searched minimum, panicking when no assignment evaluates |
| Day10.SearchIsLeast | day10/src/main.rs:285-316 | the search returns the least of the running best and every completion's total, which it attains |
| Day10.TryIsLeast | day10/src/main.rs:300-315 | the `for v in 0..=effort` loop returns the least of the running best and every completion from `v` on, which it attains |
| Day10.IntegerMinimumIsLeast | day10/src/main.rs:260-316 | `None` iff no assignment in `0..=effort` evaluates; otherwise the least evaluated total, attained |
| Day10.LightMatrixBinary | day10/src/main.rs:79-94 | the lights' matrix is binary |
| Day10.EliminatedFits | day10/src/main.rs:147-203 | after elimination the pivot map names existing rows and makes valid search parameters |
| Day10.LightPressesIsLeast | day10/src/main.rs:75-104 | panics iff a row below the pivots asks for an odd count from no button; otherwise the least presses over all free assignments |
| Day10.VoltagePressesIsLeast | day10/src/main.rs:106-145 | panics iff inconsistent or no assignment evaluates; otherwise the least evaluated total, attained |
| Day10.FindOptimalButtonPressesCount | day10/src/main.rs:75-104 | the method computes the part A presses of one machine |
| Day10.FindOptimalButtonPressesForVoltage | day10/src/main.rs:106-145 | the method computes the part B presses of one machine |
| Day10.PartA | day10/src/main.rs:365-371 | the sum over machines of their light presses, the first panic propagated |
| Day10.PartB | day10/src/main.rs:373-383 | the sum over machines of their voltage presses, each asserted positive |
| Day10Solutions.SwapSolutions | day10/src/main.rs:166-172 | swapping two rows keeps the solutions, over the integers and modulo 2 |
| Day10Solutions.CombineResidual | day10/src/main.rs:184-194 | the fraction-free row update scales the row's residual by the pivot and subtracts the factor times the pivot row's residual |
| Day10Solutions.XorResidual | day10/src/main.rs:174-182 | the xor row update adds the pivot row's residual to the row's, modulo 2 |
| Day10Solutions.ClearIntSolutions | day10/src/main.rs:184-194 | clearing below a nonzero pivot keeps exactly the integer solutions |
| Day10Solutions.ClearGf2Solutions | day10/src/main.rs:174-182 | clearing a binary column keeps exactly the solutions modulo 2 |
| Day10Solutions.EliminateSolutions | day10/src/main.rs:147-203 | elimination keeps exactly the solutions: modulo 2 over GF(2), over the integers otherwise |
| Day10Solutions.LightEliminationSolutions | day10/src/main.rs:75-104 | the eliminated lights' matrix has the same solutions modulo 2 as the lights' system |
| Day10Solutions.VoltageEliminationSolutions | day10/src/main.rs:106-145 | the eliminated counters' matrix has the same integer solutions as the counters' system |
| Day11.LineEdges | day11/src/main.rs:57-65 | panics iff the line has no `:`; otherwise every edge leaves the text before the first `:` |
| Day11.LineEdgesOfText | day11/src/main.rs:57-65 | a line `node: t1 t2 ...` yields exactly the edges `node -> t1`, `node -> t2`, ... in order |
| Day11.GraphEdges | shared/src/graph.rs:21-22 | collecting the mapped lines panics iff some line has no `:`; otherwise it gives the edges of every line, line after line |
| Day11.GraphEdgesOfLines | shared/src/graph.rs:21-22 | one more well-formed line appends exactly its own edges |
| Day11.AddEdges | shared/src/graph.rs:24-26 | adding the edges to a directed graph without self-loops or parallel edges panics iff some edge is a self-loop, is listed twice or is already present; otherwise the graph holds the old edges and the new ones |
| Day11.FileLinesToGraph | shared/src/graph.rs:17-29 | panics iff some line has no `:`, or the collected edges hold a self-loop or a repeated edge; otherwise the graph's edges are the collected ones, without repeats or self-loops |
| Day11.RepeatedTargetPanics | shared/src/graph.rs:24-26 | a line naming one target twice, such as `svr: out out`, makes building the graph panic |
| Day11.SelfLoopPanics | shared/src/graph.rs:24-26 | a line naming its own node, such as `a: a`, makes building the graph panic |
| Day11.TargetsMember | day11/src/main.rs:67-74 | `v` is a target of `u` exactly when the edge `u -> v` is present |
| Day11.TargetsOfNonSource | day11/src/main.rs:67-74 | a node without outgoing edges has no targets |
| Day11.SourcesMember | day11/src/main.rs:67-74 | the keys are exactly the nodes with an outgoing edge |
| Day11.BuildAdjacency | day11/src/main.rs:67-74 | the map sends each source to its targets in edge order, and has no other key |
| Day11.ToListing | day11/src/main.rs:77-80 | the listing holds every entry of the map once, in some order |
| Day11.NeighboursFirst | day11/src/main.rs:114-127 | the neighbours are those of the first entry keyed by the node (the `break`), and none when no entry is |
| Day11.NeighboursOfListing | day11/src/main.rs:77-80 | over a listing of a map the neighbours of a node are its entry, or none |
| Day11.NeighboursAreTargets | day11/src/main.rs:67-80 | over a listing of the adjacency the neighbours of every node are its targets, in edge order |
| Day11.ListingOrderIrrelevant | day11/src/main.rs:77-80 | the count is the same for every order the hash map lists its entries in |
| Day11.DfsSameNeighbours | day11/src/main.rs:93-130 | the search depends on the listing only through each node's neighbours |
| Day11.DfsFuelMono | day11/src/main.rs:93-130 | a count reached within a depth bound is the count for every larger bound |
| Day11.DfsTerminates | day11/src/main.rs:93-130 | on a graph whose edges decrease a rank, the search finishes once the bound reaches the start's rank |
| Day11.WalksAreWalks | day11/src/main.rs:93-130 | every explored walk is a walk from the start to the target along edges, of at most `fuel` steps |
| Day11.WalksComplete | day11/src/main.rs:93-130 | every walk from the start to the target of at most `fuel` steps is explored |
| Day11.CountThroughAppend | day11/src/main.rs:116-124 | counting walks through both flags is additive over concatenation |
| Day11.ThroughCons | day11/src/main.rs:108-109 | putting a node in front of a walk moves its `dac`/`fft` test into the flags |
| Day11.DfsCountsWalks | day11/src/main.rs:93-130 | the count is the number of explored walks that pass through `dac` and `fft`, counting the flags already set |
| Day11.SumPathsCountsWalks | day11/src/main.rs:116-124 | the sum over the neighbours is the number of explored walks from them through `dac` and `fft` |
| Day11.SumPathsFuelMono | day11/src/main.rs:116-124 | a sum reached within a depth bound is the sum for every larger bound |
| Day11.SumPathsTerminates | day11/src/main.rs:116-124 | on a ranked graph the sum finishes once the bound reaches every neighbour's rank |
| Day11.SumPathsSameNeighbours | day11/src/main.rs:116-124 | the sum depends on the listing only through each node's neighbours |
| Day11.WalksFromAreWalks | day11/src/main.rs:116-124 | every walk explored from the neighbours is a walk from one of them to the target, of at most `fuel + 1` nodes |
| Day11.WalksFromComplete | day11/src/main.rs:116-124 | every walk from a neighbour to the target of at most `fuel + 1` nodes is explored |
| Day11.PartB | day11/src/main.rs:53-91 | panics iff some line has no `:` or the collected edges hold a self-loop or a repeated edge; otherwise the edges have no repeats and the result is the `svr -> out` count, the same for every listing of the adjacency |
| Day12.ParseU32 | day12/src/main.rs:32-33 | succeeds exactly on decimal text whose value is below `2^32`, and gives that value |
| Day12.ParseCount | day12/src/main.rs:37-44 | succeeds exactly on decimal text whose value is below `2^64`, panicking otherwise |
| Day12.ParseSpace | day12/src/main.rs:18-52 | panics unless one `:` and one `x`; a parsed width and height fit `u32` and every count fits `usize` |
| Day12.ParseU32OfDecimal | day12/src/main.rs:32-33 | a `u32` written in decimal parses back to itself |
| Day12.ParseSpaceText | day12/src/main.rs:18-52 | a region written as `WxH: c0 c1 ...` parses back to itself |
| Day12.NoColonPanics | day12/src/main.rs:20-23 | a line without `:` panics |
| Day12.TwoColonsPanic | day12/src/main.rs:20-23 | a line with two `:` panics |
| Day12.OccurrencesIsMultiplicity | day12/src/main.rs:58-64 | the count of a byte is its multiplicity |
| Day12.FilledAreaBounds | day12/src/main.rs:58-64 | the filled area is the number of `#` in the row-major cells, at most the cell count |
| Day12.FilledAreaByRows | day12/src/main.rs:58-64 | the filled area is the sum of the rows' `#` counts |
| Day12.Areas | day12/src/main.rs:86-89 | one filled area per shape, in order |
| Day12.RegionLines | day12/src/main.rs:81-85 | exactly the input lines containing `x`, in order |
| Day12.RequiredTruncates | day12/src/main.rs:95-99 | only the first `min(areas, counts)` pairs count (the `zip`) |
| Day12.RequiredSymmetric | day12/src/main.rs:95-99 | the required area is symmetric in areas and counts |
| Day12.RequiredMonotone | day12/src/main.rs:95-99 | one more copy of shape `k` adds its area |
| Day12.CountFitsIsCardinality | day12/src/main.rs:91-108 | the count is the number of regions whose required area is below width times height |
| Day12.CountFitting | day12/src/main.rs:90-110 | the loop counts the regions that pass the area test |
| Day12.PartA | day12/src/main.rs:72-111 | panics iff some `x` line is not a region; otherwise counts the regions that pass the area test |

## Left out

- `find_polygon` (shared/src/polygons.rs) is not modelled. It works on f64 coordinates and the geo crate's polygons.
- shared/src/space_2d.rs, shared/src/space_3d.rs and shared/src/array3d.rs are not part of this model. They contain floating-point distances and a crate wrapper.
- shared/src/lib.rs only re-exports modules.
- shared/src/graph.rs is modelled only as far as day 11 uses it: `file_lines_to_graph_directed` collects the edges and adds them to a directed graph. That graph refuses self-loops and parallel edges with an error (`GraphSpecs::directed_create_missing`), and the `unwrap` turns the error into a panic. The rest of the graphrs graph is not modelled. `get_all_edges` is taken to list the edges in the order they were added.
- Day 8 is not modelled. It is built on graphrs BFS with f64 `sqrt` edge weights.
- Day 11 `part_a` is not modelled. It relies on graphrs successor queries, and its test uses `Question::AltSample`, which `Question` does not define.
- Day 10 `machine_from_line` and the loading of machines are not modelled. They parse with the regex crate, so machines are given as values.
- `main`, thread spawn/join, `println!`, `print!` and `print_array` are left out. They only produce output.
- rayon's parallel iterators (days 9 and 10) are modelled as sequential maps and sums.
- `std::fs::read_to_string` and `env!(CARGO_MANIFEST_DIR)` are parameters: the contents and the root path.
- `get_question_data_as_2d_matrices_lb_sep` is defined in no modelled file. Day 12 receives its shapes as a parameter.
- `pathfinding::dijkstra` is represented by its answer, which is a parameter constrained by what dijkstra promises. Its internals are not modelled.
- memoize's cache is not modelled. `dfs_memoized` and day 7's recursion are modelled as plain recursion. For `dfs_memoized` this computes the same values, because the adjacency is part of the cache key. Day 7's `#[memoize(Ignore: input_file)]` leaves the grid out of its key. The plain recursion therefore agrees with it only while its cache has seen a single grid. A second grid explored through the same cache would be answered from the first grid's entries, and the model does not capture that.
- itertools' `multi_cartesian_product` is specified by its results. For `num_elements = 0` the result depends on the itertools version and is not pinned down.
- `create_n_choice_sets_unordered` is defined in no modelled file. It is taken to select with replacement.
- `adjacent_positions`, `Adjacents`, `Directions` and `move_grid_cursor_by_direction` are defined in no modelled file. The `Grid` module gives each one a definition with the contract their callers rely on.
- Fixed-width overflow in arithmetic is not modelled. Sums and products are unbounded, including the u32/u64/usize totals and day 10's i128 fraction-free elimination. Modelled are the panics the code hits on underflow and on negating `i32::MIN`, day 10's explicit `usize::MAX` and `i64::MAX` bounds, and the range check of every `parse` into a fixed-width type: `i32` in day 1, `u64` in day 2 and in `DecimalDigits::from`, a 64-bit `usize` in day 5, `i64` in day 6 and in day 9 part B, `i128` in day 9 part A, and `u32` in day 12.
- Day12.CountFits: day 12's `f64` casts are modelled as exact integer arithmetic. Rounding of areas above 2^53 is not modelled.
- Day4.PartA, Day4.PartB, Day6.PartB, Day7.PartA and Day7.PartB take their `array2` in the corrected reader's shape (`ReadInputFile.ToGrid`, one row per line). As written, the source hands them the grid that shared/src/read_input_file.rs:31 builds, with the transposed shape of `ReadInputFile.ToGridAsWritten` (see Findings). The two agree only on square inputs (`ReadInputFile.SquareGridAsWritten`). The sample results, such as `Day6Sample.SamplePartB`, are stated on the intended grid.
- FloodFill.RecursivelyFill and FloodFill.FloodFill require `empty != fill`. When the two bytes are equal, shared/src/flood_fill.rs:17-22 recurses back into cells it has already written, without bound, until the stack overflows. The model does not cover that input.
- Day11.Dfs: the recursion of `dfs_memoized` does not terminate on a cyclic graph. The model carries a depth bound `fuel` and returns `None` when the bound is reached. The count is proved for every bound at which the search finishes, and the search is proved to finish on acyclic (ranked) graphs.
- Day11.PartB: the result is stated for every order in which the hash map may list its entries. The order the hash map actually chooses is left open.
- Unicode is not modelled: text is bytes, and `split_whitespace`/`trim` use ASCII whitespace.

## Findings

| source | as written | input that shows it | evidently intended | confidence | as-written member | corrected member |
|---|---|---|---|---|---|---|
| day1/src/main.rs:68-73 | `part_b` counts a left wrap from dial 0 and also counts landing on 0, so a whole-turn move from 0 counts one extra pass | moves `[-50, 100]` from 50: the count is 3, although the dial passes 0 twice | count each click onto 0 exactly once | not executed | Day1.OvercountExample | Day1.ZerosBFixedCountsHits |
| day3/src/main.rs:63 | the first `part_b` pick looks at `take(len - 12)`, one index short of the last start that still leaves 11 digits | any 13-digit line whose first digit is below its second, e.g. `1999999999999` gives 199999999999 | 999999999999, the largest 12-digit subsequence | not executed | Day3.FirstWindowTooShort | Day3.LineBFixedIsBest |
| shared/src/read_input_file.rs:31 | `from_row_major(bytes, lines[0].len(), lines.len())` passes columns as the row count; the non-square sample tests of days 4, 6 and 7 depend on the intended shape | `abc\ndef` becomes the 3×2 grid `ab`/`cd`/`ef` | the 2×3 grid `abc`/`def`, as array_trim.rs:34 passes rows first | not executed | ReadInputFile.TransposedShapeExample | ReadInputFile.GridOfLines |

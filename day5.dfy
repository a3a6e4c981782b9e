/** Day 5: fresh ingredient ids.  The input lists inclusive id ranges
    `a-b` and single ids.  Part A counts the listed ids that fall in some
    range; part B merges the ranges and counts every id they cover. */
module Day5 {
  import opened Wrappers
  import opened Text
  import opened RustInt

  /** An inclusive range of ids, `(start, end)`. */
  datatype Range = Range(start: nat, end: nat)

  predicate InRange(r: Range, x: nat)
  {
    r.start <= x <= r.end
  }

  predicate InSomeRange(rs: seq<Range>, x: nat)
  {
    exists k :: 0 <= k < |rs| && InRange(rs[k], x)
  }

  // ---------------------------------------------------------------------
  // Parsing

  /** `line.split_once('-')` and both halves `parse::<usize>().unwrap()`ed;
      a line without `-` fails the outer `unwrap`. */
  function ParseRange(line: Bytes): (r: Result<Range>)
    ensures SplitOnce(line, MINUS).None? ==> r.Panic?
    ensures SplitOnce(line, MINUS).Some? ==>
      var (a, b) := SplitOnce(line, MINUS).value;
      (r.Ok? <==> ParseUnsignedBelow(a, U64_LIMIT).Some? && ParseUnsignedBelow(b, U64_LIMIT).Some?) &&
      (r.Ok? ==> r.value == Range(ParseUnsigned(a).value, ParseUnsigned(b).value))
    ensures r.Ok? ==> r.value.start < U64_LIMIT && r.value.end < U64_LIMIT
  {
    match SplitOnce(line, MINUS)
    case None => Panic("called `Option::unwrap()` on a `None` value")
    case Some((a, b)) =>
      match (ParseUnsignedBelow(a, U64_LIMIT), ParseUnsignedBelow(b, U64_LIMIT))
      case (Some(x), Some(y)) => Ok(Range(x, y))
      case _ => Panic("called `Result::unwrap()` on an `Err` value: ParseIntError")
  }

  /** `line.parse::<usize>().unwrap()` for an id line. */
  function ParseId(line: Bytes): (r: Result<nat>)
    ensures r.Ok? <==> ParseUnsigned(line).Some? && ParseUnsigned(line).value < U64_LIMIT
    ensures r.Ok? ==> r.value == ParseUnsigned(line).value
  {
    match ParseUnsignedBelow(line, U64_LIMIT)
    case Some(v) => Ok(v)
    case None => Panic("called `Result::unwrap()` on an `Err` value: ParseIntError")
  }

  /** Printing a range as `a-b` and parsing it back gives the range. */
  lemma RangeLineRoundTrip(r: Range)
    requires r.start < U64_LIMIT && r.end < U64_LIMIT
    ensures MINUS in Decimal(r.start) + [MINUS] + Decimal(r.end)
    ensures ParseRange(Decimal(r.start) + [MINUS] + Decimal(r.end)).Ok?
    ensures ParseRange(Decimal(r.start) + [MINUS] + Decimal(r.end)).value == r
  {
    var a, b := Decimal(r.start), Decimal(r.end);
    var line := a + [MINUS] + b;
    FirstSeparator(a, MINUS, b);
    assert line[..|a|] == a && line[|a| + 1..] == b;
    var sp := SplitOnce(line, MINUS);
    assert sp.Some? && sp.value.0 == a && sp.value.1 == b;
    DecimalParses(r.start);
    DecimalParses(r.end);
  }

  /** What the parsing loop of `part_a` collects. */
  datatype Inventory = Inventory(ranges: seq<Range>, ids: seq<nat>)

  /** The parsing loop of `part_a` over `lines`: a line holding `-` is a
      range, any other non-empty line an id; the first line that does not
      parse panics. */
  function InventoryOf(lines: seq<Bytes>): (r: Result<Inventory>)
  {
    if lines == [] then Ok(Inventory([], []))
    else
      var line := lines[|lines| - 1];
      match InventoryOf(lines[..|lines| - 1])
      case Panic(why) => Panic(why)
      case Ok(inv) =>
        if MINUS in line then
          match ParseRange(line)
          case Panic(why) => Panic(why)
          case Ok(range) => Ok(Inventory(inv.ranges + [range], inv.ids))
        else if line != [] then
          match ParseId(line)
          case Panic(why) => Panic(why)
          case Ok(id) => Ok(Inventory(inv.ranges, inv.ids + [id]))
        else Ok(inv)
  }

  /** The range lines and the id lines, in order. */
  function RangeLines(lines: seq<Bytes>): (r: seq<Bytes>)
  {
    if lines == [] then []
    else RangeLines(lines[..|lines| - 1]) + (if MINUS in lines[|lines| - 1] then [lines[|lines| - 1]] else [])
  }

  function IdLines(lines: seq<Bytes>): (r: seq<Bytes>)
  {
    if lines == [] then []
    else
      var line := lines[|lines| - 1];
      IdLines(lines[..|lines| - 1]) + (if MINUS !in line && line != [] then [line] else [])
  }

  /** `part_a` reads every range line as a range and every other non-empty
      line as an id, and panics iff one of them does not parse. */
  lemma {:induction false} InventoryIsParsedLines(lines: seq<Bytes>)
    ensures InventoryOf(lines).Ok? <==>
              MapAll(ParseRange, RangeLines(lines)).Ok? && MapAll(ParseId, IdLines(lines)).Ok?
    ensures InventoryOf(lines).Ok? ==>
              InventoryOf(lines).value.ranges == MapAll(ParseRange, RangeLines(lines)).value &&
              InventoryOf(lines).value.ids == MapAll(ParseId, IdLines(lines)).value
  {
    if lines != [] {
      var init, line := lines[..|lines| - 1], lines[|lines| - 1];
      InventoryIsParsedLines(init);
      var ri, ii := RangeLines(init), IdLines(init);
      if MINUS in line {
        assert RangeLines(lines) == ri + [line];
        assert IdLines(lines) == ii;
        MapAllSnoc(ParseRange, ri, line);
      } else if line != [] {
        assert RangeLines(lines) == ri;
        assert IdLines(lines) == ii + [line];
        MapAllSnoc(ParseId, ii, line);
      } else {
        assert RangeLines(lines) == ri;
        assert IdLines(lines) == ii;
      }
    }
  }

  /** Once a prefix of the lines panics, so does the whole parse, with the
      same message. */
  lemma {:induction false} InventoryPanicSticks(lines: seq<Bytes>, i: nat)
    requires i <= |lines| && InventoryOf(lines[..i]).Panic?
    ensures InventoryOf(lines) == InventoryOf(lines[..i])
    decreases |lines| - i
  {
    if i < |lines| {
      assert lines[..|lines| - 1][..i] == lines[..i];
      InventoryPanicSticks(lines[..|lines| - 1], i);
    } else {
      assert lines[..i] == lines;
    }
  }

  /** The parsing loop of `part_a`. */
  method ParseInventory(lines: seq<Bytes>) returns (r: Result<Inventory>)
    ensures r == InventoryOf(lines)
  {
    var ranges: seq<Range> := [];
    var ids: seq<nat> := [];
    for i := 0 to |lines|
      invariant InventoryOf(lines[..i]) == Ok(Inventory(ranges, ids))
    {
      var line := lines[i];
      assert lines[..i + 1][..i] == lines[..i];
      if MINUS in line {
        var parsed := ParseRange(line);
        if parsed.Panic? {
          InventoryPanicSticks(lines, i + 1);
          return Panic(parsed.why);
        }
        ranges := ranges + [parsed.value];
      } else if line != [] {
        var parsed := ParseId(line);
        if parsed.Panic? {
          InventoryPanicSticks(lines, i + 1);
          return Panic(parsed.why);
        }
        ids := ids + [parsed.value];
      }
    }
    assert lines[..|lines|] == lines;
    r := Ok(Inventory(ranges, ids));
  }

  /** The parsing loop of `part_b`: only the range lines count. */
  function RangesOf(lines: seq<Bytes>): (r: Result<seq<Range>>)
  {
    if lines == [] then Ok([])
    else
      var line := lines[|lines| - 1];
      match RangesOf(lines[..|lines| - 1])
      case Panic(why) => Panic(why)
      case Ok(rs) =>
        if MINUS in line then
          match ParseRange(line)
          case Panic(why) => Panic(why)
          case Ok(range) => Ok(rs + [range])
        else Ok(rs)
  }

  /** `part_b` reads the same ranges as `part_a`, and ignores the id lines
      even when they would not parse. */
  lemma {:induction false} RangesAreParsedLines(lines: seq<Bytes>)
    ensures RangesOf(lines).Ok? <==> MapAll(ParseRange, RangeLines(lines)).Ok?
    ensures RangesOf(lines).Ok? ==> RangesOf(lines).value == MapAll(ParseRange, RangeLines(lines)).value
  {
    if lines != [] {
      var init, line := lines[..|lines| - 1], lines[|lines| - 1];
      RangesAreParsedLines(init);
      var ri := RangeLines(init);
      if MINUS in line {
        assert RangeLines(lines) == ri + [line];
        MapAllSnoc(ParseRange, ri, line);
      } else {
        assert RangeLines(lines) == ri;
      }
    }
  }

  lemma {:induction false} RangesPanicSticks(lines: seq<Bytes>, i: nat)
    requires i <= |lines| && RangesOf(lines[..i]).Panic?
    ensures RangesOf(lines) == RangesOf(lines[..i])
    decreases |lines| - i
  {
    if i < |lines| {
      assert lines[..|lines| - 1][..i] == lines[..i];
      RangesPanicSticks(lines[..|lines| - 1], i);
    } else {
      assert lines[..i] == lines;
    }
  }

  method ParseRanges(lines: seq<Bytes>) returns (r: Result<seq<Range>>)
    ensures r == RangesOf(lines)
  {
    var ranges: seq<Range> := [];
    for i := 0 to |lines|
      invariant RangesOf(lines[..i]) == Ok(ranges)
    {
      var line := lines[i];
      assert lines[..i + 1][..i] == lines[..i];
      if MINUS in line {
        var parsed := ParseRange(line);
        if parsed.Panic? {
          RangesPanicSticks(lines, i + 1);
          return Panic(parsed.why);
        }
        ranges := ranges + [parsed.value];
      }
    }
    assert lines[..|lines|] == lines;
    r := Ok(ranges);
  }

  // ---------------------------------------------------------------------
  // Part A

  /** The ids lying in some range, in order, each entry at most once. */
  function Fresh(rs: seq<Range>, ids: seq<nat>): (f: seq<nat>)
  {
    if ids == [] then []
    else Fresh(rs, ids[..|ids| - 1]) + (if InSomeRange(rs, ids[|ids| - 1]) then [ids[|ids| - 1]] else [])
  }

  /** Each id entry is kept once if it is in a range and dropped
      otherwise. */
  lemma {:induction false} FreshMultiplicity(rs: seq<Range>, ids: seq<nat>, x: nat)
    ensures multiset(Fresh(rs, ids))[x] == if InSomeRange(rs, x) then multiset(ids)[x] else 0
  {
    if ids != [] {
      var init := ids[..|ids| - 1];
      FreshMultiplicity(rs, init, x);
      assert ids == init + [ids[|ids| - 1]];
    }
  }

  /** The inner loop of `part_a`: scan the ranges, stopping at the first
      one holding `id`. */
  method IsFresh(rs: seq<Range>, id: nat) returns (found: bool)
    ensures found == InSomeRange(rs, id)
  {
    found := false;
    for k := 0 to |rs|
      invariant !found && forall j :: 0 <= j < k ==> !InRange(rs[j], id)
    {
      if id >= rs[k].start && id <= rs[k].end {
        found := true;
        break;
      }
    }
  }

  method FreshIngredients(rs: seq<Range>, ids: seq<nat>) returns (freshIds: seq<nat>)
    ensures freshIds == Fresh(rs, ids)
  {
    freshIds := [];
    for i := 0 to |ids|
      invariant freshIds == Fresh(rs, ids[..i])
    {
      assert ids[..i + 1][..i] == ids[..i];
      var inRange := IsFresh(rs, ids[i]);
      if inRange {
        freshIds := freshIds + [ids[i]];
      }
    }
    assert ids[..|ids|] == ids;
  }

  /** `part_a` on the lines of the input. */
  method PartA(lines: seq<Bytes>) returns (r: Result<nat>)
    ensures r.Panic? <==> InventoryOf(lines).Panic?
    ensures r.Ok? ==> r.value == |Fresh(InventoryOf(lines).value.ranges, InventoryOf(lines).value.ids)|
  {
    var inventory := ParseInventory(lines);
    if inventory.Panic? {
      return Panic(inventory.why);
    }
    var freshIds := FreshIngredients(inventory.value.ranges, inventory.value.ids);
    r := Ok(|freshIds|);
  }

  // ---------------------------------------------------------------------
  // Part B: sorting

  predicate SortedByStart(s: seq<Range>)
  {
    forall i, j :: 0 <= i < j < |s| ==> s[i].start <= s[j].start
  }

  /** The ranges of `s` that start at `v`, in their order in `s`.  A sort
      by start is stable when it keeps each of these subsequences. */
  function WithStart(s: seq<Range>, v: nat): seq<Range>
  {
    if s == [] then []
    else WithStart(s[..|s| - 1], v) + (if s[|s| - 1].start == v then [s[|s| - 1]] else [])
  }

  /** `x` placed after every range of `s` whose start is not larger. */
  function InsertByStart(s: seq<Range>, x: Range): (t: seq<Range>)
    requires SortedByStart(s)
    ensures SortedByStart(t) && multiset(t) == multiset(s) + multiset{x}
  {
    if s == [] then [x]
    else
      var init, last := s[..|s| - 1], s[|s| - 1];
      assert s == init + [last];
      if last.start <= x.start then
        SortedSnoc(s, x);
        s + [x]
      else
        var t := InsertByStart(init, x);
        StartsBelowLast(s, x, t);
        SortedSnoc(t, last);
        t + [last]
  }

  /** Everything inserted into the prefix of `s`, `x` included, stays on its
      side of the last element of `s`. */
  lemma StartsBelowLast(s: seq<Range>, x: Range, t: seq<Range>)
    requires SortedByStart(s) && s != [] && x.start < s[|s| - 1].start
    requires multiset(t) == multiset(s[..|s| - 1]) + multiset{x}
    ensures forall k :: 0 <= k < |t| ==> t[k].start <= s[|s| - 1].start
  {
    var init, last := s[..|s| - 1], s[|s| - 1];
    forall k | 0 <= k < |t|
      ensures t[k].start <= last.start
    {
      assert t[k] in multiset(t);
      if t[k] in multiset(init) {
        var j :| 0 <= j < |init| && init[j] == t[k];
        assert s[j] == init[j];
      }
    }
  }

  lemma SortedSnoc(s: seq<Range>, y: Range)
    requires SortedByStart(s) && forall k :: 0 <= k < |s| ==> s[k].start <= y.start
    ensures SortedByStart(s + [y])
  {
    var t := s + [y];
    forall i, j | 0 <= i < j < |t|
      ensures t[i].start <= t[j].start
    {
      assert t[i] == s[i];
      if j < |s| {
        assert t[j] == s[j];
      }
    }
  }

  /** Inserting keeps the ranges that share a start in their order and puts
      `x` after those that share its start. */
  lemma {:induction false} InsertByStartStable(s: seq<Range>, x: Range, v: nat)
    requires SortedByStart(s)
    ensures WithStart(InsertByStart(s, x), v) == WithStart(s, v) + (if x.start == v then [x] else [])
  {
    if s != [] {
      var init, last := s[..|s| - 1], s[|s| - 1];
      assert s == init + [last];
      WithStartSnoc(init, last, v);
      if last.start <= x.start {
        assert InsertByStart(s, x) == s + [x];
        WithStartSnoc(s, x, v);
      } else {
        var t' := InsertByStart(init, x);
        InsertByStartStable(init, x, v);
        assert InsertByStart(s, x) == t' + [last];
        WithStartSnoc(t', last, v);
        if x.start == v {
          assert last.start != v;
          assert WithStart(s, v) == WithStart(init, v);
        } else {
          assert WithStart(t', v) == WithStart(init, v);
        }
      }
    }
  }

  /** One more range at the end adds it when it starts at `v`. */
  lemma WithStartSnoc(s: seq<Range>, y: Range, v: nat)
    ensures WithStart(s + [y], v) == WithStart(s, v) + (if y.start == v then [y] else [])
  {
    assert (s + [y])[..|s|] == s;
  }

  /** `fresh_ranges.sort_by(|(a, _), (b, _)| a.cmp(b))`: ordered by start,
      the same ranges, and stable: ranges with equal starts keep their input
      order. */
  function SortByStart(rs: seq<Range>): (s: seq<Range>)
    ensures SortedByStart(s) && multiset(s) == multiset(rs)
  {
    if rs == [] then []
    else
      assert rs == rs[..|rs| - 1] + [rs[|rs| - 1]];
      InsertByStart(SortByStart(rs[..|rs| - 1]), rs[|rs| - 1])
  }

  /** The sort is stable: the ranges with start `v` come out in the order
      they went in. */
  lemma {:induction false} SortByStartStable(rs: seq<Range>, v: nat)
    ensures WithStart(SortByStart(rs), v) == WithStart(rs, v)
  {
    if rs != [] {
      var init, last := rs[..|rs| - 1], rs[|rs| - 1];
      SortByStartStable(init, v);
      InsertByStartStable(SortByStart(init), last, v);
    }
  }

  // ---------------------------------------------------------------------
  // Part B: merging

  /** `overlap_end || overlap_start`: the new range's start or end lies in
      the existing one. */
  predicate Overlaps(existing: Range, r: Range)
  {
    (r.start >= existing.start && r.start <= existing.end) ||
    (r.end >= existing.start && r.end <= existing.end)
  }

  function Min(a: nat, b: nat): nat { if a <= b then a else b }
  function Max(a: nat, b: nat): nat { if a >= b then a else b }

  /** The replacement `(min start, max end)`. */
  function Hull(existing: Range, r: Range): (h: Range)
    ensures h.start <= existing.start && h.start <= r.start
    ensures h.end >= existing.end && h.end >= r.end
    ensures h.start == existing.start || h.start == r.start
    ensures h.end == existing.end || h.end == r.end
  {
    Range(Min(r.start, existing.start), Max(r.end, existing.end))
  }

  /** The index of the first range of `m` that `r` overlaps, or `|m|`. */
  function FirstOverlap(m: seq<Range>, r: Range): (k: nat)
    ensures k <= |m|
    ensures k < |m| ==> Overlaps(m[k], r)
    ensures forall j :: 0 <= j < k ==> !Overlaps(m[j], r)
  {
    if m == [] then 0
    else if Overlaps(m[0], r) then 0
    else
      var k := FirstOverlap(m[1..], r);
      assert forall j :: 1 <= j < k + 1 ==> m[j] == m[1..][j - 1];
      k + 1
  }

  /** `r` folded into the first range it overlaps, or appended. */
  function MergeInto(m: seq<Range>, r: Range): (n: seq<Range>)
  {
    var k := FirstOverlap(m, r);
    if k < |m| then m[k := Hull(m[k], r)] else m + [r]
  }

  function MergeAll(rs: seq<Range>): (m: seq<Range>)
    ensures |m| <= |rs|
  {
    if rs == [] then [] else MergeInto(MergeAll(rs[..|rs| - 1]), rs[|rs| - 1])
  }

  /** The inner loop of `part_b`: rewrite the first overlapping range, or
      push the new one. */
  method MergeRange(merged: seq<Range>, range: Range) returns (updated: seq<Range>)
    ensures updated == MergeInto(merged, range)
  {
    var added := false;
    updated := merged;
    var i := 0;
    while i < |merged|
      invariant i <= |merged| && !added && updated == merged
      invariant forall j :: 0 <= j < i ==> !Overlaps(merged[j], range)
    {
      var start := range.start;
      var end := range.end;
      var existingStart := merged[i].start;
      var existingEnd := merged[i].end;
      var overlapEnd := start >= existingStart && start <= existingEnd;
      var overlapStart := end >= existingStart && end <= existingEnd;
      if overlapEnd || overlapStart {
        updated := merged[i := Hull(merged[i], range)];
        added := true;
        break;
      }
      i := i + 1;
    }
    if !added {
      updated := merged + [range];
    }
  }

  method MergeRanges(sorted: seq<Range>) returns (merged: seq<Range>)
    ensures merged == MergeAll(sorted)
  {
    merged := [];
    for i := 0 to |sorted|
      invariant merged == MergeAll(sorted[..i])
    {
      assert sorted[..i + 1][..i] == sorted[..i];
      merged := MergeRange(merged, sorted[i]);
    }
    assert sorted[..|sorted|] == sorted;
  }

  // ---------------------------------------------------------------------
  // Part B: the merged ranges are disjoint and cover the same ids

  predicate WellFormed(r: Range)
  {
    r.start <= r.end
  }

  predicate AllWellFormed(rs: seq<Range>)
  {
    forall k :: 0 <= k < |rs| ==> WellFormed(rs[k])
  }

  /** Well-formed ranges in increasing order, each ending before the next
      starts: pairwise disjoint. */
  predicate Disjoint(m: seq<Range>)
  {
    AllWellFormed(m) && forall i, j :: 0 <= i < j < |m| ==> m[i].end < m[j].start
  }

  function RangeSet(r: Range): (s: set<nat>)
    ensures forall x :: x in s <==> InRange(r, x)
  {
    set x: nat | x <= r.end && InRange(r, x)
  }

  /** The ids some range of `rs` covers. */
  function Covered(rs: seq<Range>): (s: set<nat>)
  {
    if rs == [] then {} else Covered(rs[..|rs| - 1]) + RangeSet(rs[|rs| - 1])
  }

  lemma {:induction false} CoveredMembers(rs: seq<Range>, x: nat)
    ensures x in Covered(rs) <==> InSomeRange(rs, x)
  {
    if rs != [] {
      var init := rs[..|rs| - 1];
      CoveredMembers(init, x);
      if InSomeRange(init, x) {
        var k :| 0 <= k < |init| && InRange(init[k], x);
        assert rs[k] == init[k];
      }
      if InSomeRange(rs, x) && !InRange(rs[|rs| - 1], x) {
        var k :| 0 <= k < |rs| && InRange(rs[k], x);
        assert init[k] == rs[k];
      }
    }
  }

  /** For a well-formed range starting no earlier than `existing`, the
      end-point test of `Overlaps` holds exactly when the two share an id. */
  lemma OverlapsShareId(existing: Range, r: Range)
    requires WellFormed(r) && existing.start <= r.start
    ensures Overlaps(existing, r) <==> RangeSet(existing) * RangeSet(r) != {}
  {
    if Overlaps(existing, r) {
      assert r.start in RangeSet(existing) * RangeSet(r);
    }
    if RangeSet(existing) * RangeSet(r) != {} {
      var x :| x in RangeSet(existing) * RangeSet(r);
      assert InRange(existing, r.start);
    }
  }

  /** A sorted, well-formed new range overlaps at most the last merged
      range. */
  lemma OnlyLastOverlaps(m: seq<Range>, r: Range)
    requires Disjoint(m) && WellFormed(r) && (forall k :: 0 <= k < |m| ==> m[k].start <= r.start)
    ensures FirstOverlap(m, r) >= |m| - 1
  {
  }

  /** Two overlapping ranges cover exactly what their hull covers. */
  lemma HullCovers(e: Range, r: Range)
    requires WellFormed(e) && WellFormed(r) && e.start <= r.start && Overlaps(e, r)
    ensures RangeSet(Hull(e, r)) == RangeSet(e) + RangeSet(r)
  {
  }

  /** Merging a well-formed range no earlier than every merged one keeps
      the list disjoint, keeps every start at most the new start, and adds
      exactly the new range's ids. */
  lemma MergeIntoSorted(m: seq<Range>, r: Range)
    requires Disjoint(m) && WellFormed(r) && (forall k :: 0 <= k < |m| ==> m[k].start <= r.start)
    ensures Disjoint(MergeInto(m, r))
    ensures forall k :: 0 <= k < |MergeInto(m, r)| ==> MergeInto(m, r)[k].start <= r.start
    ensures Covered(MergeInto(m, r)) == Covered(m) + RangeSet(r)
  {
    MergeIntoShape(m, r);
    if m != [] && Overlaps(m[|m| - 1], r) {
      HullLast(m[..|m| - 1], m[|m| - 1], r);
    } else {
      AppendLast(m, r);
    }
  }

  /** Under the sortedness of `MergeIntoSorted`, only the last merged range
      can absorb `r`. */
  lemma MergeIntoShape(m: seq<Range>, r: Range)
    requires Disjoint(m) && WellFormed(r) && (forall k :: 0 <= k < |m| ==> m[k].start <= r.start)
    ensures m != [] ==> m == m[..|m| - 1] + [m[|m| - 1]]
    ensures m != [] && Overlaps(m[|m| - 1], r) ==> MergeInto(m, r) == m[..|m| - 1] + [Hull(m[|m| - 1], r)]
    ensures !(m != [] && Overlaps(m[|m| - 1], r)) ==> MergeInto(m, r) == m + [r]
  {
    OnlyLastOverlaps(m, r);
    var k := FirstOverlap(m, r);
    if m != [] {
      assert m == m[..|m| - 1] + [m[|m| - 1]];
      if k == |m| - 1 {
        UpdateLast(m, Hull(m[k], r));
      }
    }
  }

  lemma UpdateLast<T>(m: seq<T>, x: T)
    requires m != []
    ensures m[|m| - 1 := x] == m[..|m| - 1] + [x]
  {
  }

  /** The hull case: `r` overlaps the last merged range `e`. */
  lemma HullLast(init: seq<Range>, e: Range, r: Range)
    requires Disjoint(init + [e]) && WellFormed(r) && Overlaps(e, r)
    requires forall k :: 0 <= k < |init| ==> init[k].start <= r.start
    requires e.start <= r.start
    ensures Disjoint(init + [Hull(e, r)])
    ensures forall k :: 0 <= k < |init| + 1 ==> (init + [Hull(e, r)])[k].start <= r.start
    ensures Covered(init + [Hull(e, r)]) == Covered(init + [e]) + RangeSet(r)
  {
    var h := Hull(e, r);
    ReplaceLastDisjoint(init, e, h);
    HullCovers(e, r);
    CoveredSnoc(init, h);
    CoveredSnoc(init, e);
  }

  /** The append case: `r` starts after the last merged range ends. */
  lemma AppendLast(m: seq<Range>, r: Range)
    requires Disjoint(m) && WellFormed(r) && (forall k :: 0 <= k < |m| ==> m[k].start <= r.start)
    requires m != [] ==> !Overlaps(m[|m| - 1], r)
    ensures Disjoint(m + [r])
    ensures forall k :: 0 <= k < |m| + 1 ==> (m + [r])[k].start <= r.start
    ensures Covered(m + [r]) == Covered(m) + RangeSet(r)
  {
    if m != [] {
      assert m[|m| - 1].start <= r.start;
    }
    AppendDisjoint(m, r);
    CoveredSnoc(m, r);
  }

  /** A well-formed range beyond the end of a disjoint list's last range
      can be appended to it. */
  lemma AppendDisjoint(m: seq<Range>, r: Range)
    requires Disjoint(m) && WellFormed(r) && (m != [] ==> m[|m| - 1].end < r.start)
    ensures Disjoint(m + [r])
  {
    var n := m + [r];
    forall i, j | 0 <= i < j < |n| ensures n[i].end < n[j].start {
      assert n[i] == m[i];
      if j < |m| { assert n[j] == m[j]; } else { assert m[i].end <= m[|m| - 1].end; }
    }
  }

  /** Replacing the last range of a disjoint list by a well-formed range
      with the same start keeps the list disjoint. */
  lemma ReplaceLastDisjoint(init: seq<Range>, e: Range, h: Range)
    requires Disjoint(init + [e]) && WellFormed(h) && h.start == e.start
    ensures Disjoint(init + [h])
  {
    var m, n := init + [e], init + [h];
    forall i, j | 0 <= i < j < |n| ensures n[i].end < n[j].start {
      assert n[i] == m[i];
      if j < |init| { assert n[j] == m[j]; } else { assert n[j].start == m[j].start; }
    }
    forall i | 0 <= i < |n| ensures WellFormed(n[i]) {
      if i < |init| { assert n[i] == m[i]; }
    }
  }

  lemma CoveredSnoc(init: seq<Range>, x: Range)
    ensures Covered(init + [x]) == Covered(init) + RangeSet(x)
  {
    assert (init + [x])[..|init|] == init;
  }


  /** `MergeAll` over ranges sorted by start keeps the merged ranges
      disjoint, each starting no later than the last range read. */
  lemma {:induction false} MergeAllDisjoint(rs: seq<Range>)
    requires SortedByStart(rs) && AllWellFormed(rs)
    ensures Disjoint(MergeAll(rs))
    ensures rs != [] ==> forall k :: 0 <= k < |MergeAll(rs)| ==> MergeAll(rs)[k].start <= rs[|rs| - 1].start
  {
    if rs != [] {
      var init, r := rs[..|rs| - 1], rs[|rs| - 1];
      PrefixSorted(rs);
      MergeAllDisjoint(init);
      var m := MergeAll(init);
      assert forall k :: 0 <= k < |m| ==> m[k].start <= r.start by {
        if init != [] {
          assert init[|init| - 1].start <= r.start;
        }
      }
      MergeIntoSorted(m, r);
    }
  }

  lemma PrefixSorted(rs: seq<Range>)
    requires rs != [] && SortedByStart(rs) && AllWellFormed(rs)
    ensures SortedByStart(rs[..|rs| - 1]) && AllWellFormed(rs[..|rs| - 1]) && WellFormed(rs[|rs| - 1])
    ensures forall k :: 0 <= k < |rs| - 1 ==> rs[k].start <= rs[|rs| - 1].start
  {
    assert forall k :: 0 <= k < |rs| - 1 ==> rs[..|rs| - 1][k] == rs[k];
  }

  /** ... and covers the same ids as the input. */
  lemma {:induction false} MergeAllCovers(rs: seq<Range>)
    requires SortedByStart(rs) && AllWellFormed(rs)
    ensures Covered(MergeAll(rs)) == Covered(rs)
  {
    if rs != [] {
      var init, r := rs[..|rs| - 1], rs[|rs| - 1];
      PrefixSorted(rs);
      MergeAllDisjoint(init);
      MergeAllCovers(init);
      var m := MergeAll(init);
      assert forall k :: 0 <= k < |m| ==> m[k].start <= r.start by {
        if init != [] {
          assert init[|init| - 1].start <= r.start;
        }
      }
      MergeIntoSorted(m, r);
    }
  }

  // ---------------------------------------------------------------------
  // Part B: the total

  /** `.map(|(start, end)| end - start + 1).sum()`: panics on a range whose
      end is below its start (`usize` underflow). */
  function SumSizes(m: seq<Range>): (r: Result<nat>)
    ensures r.Ok? <==> AllWellFormed(m)
  {
    if m == [] then Ok(0)
    else
      var last := m[|m| - 1];
      var init := m[..|m| - 1];
      assert forall k :: 0 <= k < |init| ==> init[k] == m[k];
      match SumSizes(init)
      case Panic(why) => Panic(why)
      case Ok(s) =>
        if last.end < last.start then Panic("attempt to subtract with overflow")
        else Ok(s + (last.end - last.start + 1))
  }

  lemma {:induction false} RangeSetSize(r: Range)
    requires WellFormed(r)
    ensures |RangeSet(r)| == r.end - r.start + 1
    decreases r.end - r.start
  {
    if r.end > r.start {
      var shorter := Range(r.start, r.end - 1);
      RangeSetSize(shorter);
      assert RangeSet(r) == RangeSet(shorter) + {r.end};
    } else {
      assert RangeSet(r) == {r.start};
    }
  }

  /** Over disjoint ranges the sum of sizes is the number of ids
      covered. */
  lemma {:induction false} SumSizesOfDisjoint(m: seq<Range>)
    requires Disjoint(m)
    ensures SumSizes(m).Ok? && SumSizes(m).value == |Covered(m)|
  {
    if m != [] {
      var init, last := m[..|m| - 1], m[|m| - 1];
      assert Disjoint(init);
      SumSizesOfDisjoint(init);
      RangeSetSize(last);
      forall x | x in Covered(init)
        ensures x !in RangeSet(last)
      {
        CoveredMembers(init, x);
        var k :| 0 <= k < |init| && InRange(init[k], x);
        assert init[k] == m[k];
      }
      assert Covered(init) * RangeSet(last) == {};
    }
  }

  /** A range ending below its start makes `part_b` panic. */
  lemma BackwardsRangePanics(r: Range)
    requires r.end < r.start
    ensures SumSizes(MergeAll([r])).Panic?
  {
    assert MergeAll([r]) == [r];
  }

  /** What `part_b` computes. */
  function TotalFresh(lines: seq<Bytes>): (r: Result<nat>)
  {
    match RangesOf(lines)
    case Panic(why) => Panic(why)
    case Ok(rs) => SumSizes(MergeAll(SortByStart(rs)))
  }

  /** With every range well-formed, `part_b` is the number of ids some
      range covers. */
  lemma TotalFreshIsCoveredCount(lines: seq<Bytes>)
    requires RangesOf(lines).Ok? && AllWellFormed(RangesOf(lines).value)
    ensures TotalFresh(lines).Ok? && TotalFresh(lines).value == |Covered(RangesOf(lines).value)|
  {
    var rs := RangesOf(lines).value;
    var s := SortByStart(rs);
    forall k | 0 <= k < |s|
      ensures WellFormed(s[k])
    {
      assert s[k] in multiset(rs);
    }
    MergeAllDisjoint(s);
    MergeAllCovers(s);
    SumSizesOfDisjoint(MergeAll(s));
    SameCovered(rs, s);
  }

  /** Reordering the ranges does not change the ids covered. */
  lemma SameCovered(a: seq<Range>, b: seq<Range>)
    requires multiset(a) == multiset(b)
    ensures Covered(a) == Covered(b)
  {
    forall x: nat
      ensures x in Covered(a) <==> x in Covered(b)
    {
      CoveredMembers(a, x);
      CoveredMembers(b, x);
      if InSomeRange(a, x) {
        var k :| 0 <= k < |a| && InRange(a[k], x);
        assert a[k] in multiset(b);
      }
      if InSomeRange(b, x) {
        var k :| 0 <= k < |b| && InRange(b[k], x);
        assert b[k] in multiset(a);
      }
    }
  }

  /** `part_b` on the lines of the input. */
  method PartB(lines: seq<Bytes>) returns (r: Result<nat>)
    ensures r == TotalFresh(lines)
  {
    var ranges := ParseRanges(lines);
    if ranges.Panic? {
      return Panic(ranges.why);
    }
    var sorted := SortByStart(ranges.value);
    var merged := MergeRanges(sorted);
    r := SumSizes(merged);
  }
}
